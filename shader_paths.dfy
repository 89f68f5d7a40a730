/**
 * How the Shader class finds its source files: if a path cannot be opened, it
 * tries "Shader/" + directory + stem + mapped extension, where the extensions
 * "vs", "fs" and "gs" become ".vert", ".frag" and ".geom". Whether a path can
 * be opened (`fileExists`, an ifstream probe) is the set `openable`.
 */
module ShaderLoader {
  import opened Common
  import opened FileSystem

  /** The replacement for a shader extension; any other extension is kept as it is, without a dot. */
  function MapShaderExtension(extension: string): string {
    if extension == "vs" then ".vert"
    else if extension == "fs" then ".frag"
    else if extension == "gs" then ".geom"
    else extension
  }

  /** The fallback path: no separator is put between the directory and the stem. */
  function FallbackCandidate(path: string): string {
    "Shader/" + (GetDirectoryPath(path) + GetFileNameWithoutExtension(path)
      + MapShaderExtension(GetFileExtension(path)))
  }

  /** The path a resolution leaves in `OutPath`. */
  function ResolvedPath(path: string, openable: set<string>): string {
    if path in openable then path
    else if FallbackCandidate(path) in openable then FallbackCandidate(path)
    else path
  }

  /**
   * Shader::CheckFileExistAndReplaceRightPath; `outPath` is the new value of
   * the reference argument. When neither path opens, CHECK(0) fires (a debug
   * trap in the source) and the function reports false.
   */
  method CheckFileExistAndReplaceRightPath(path: string, openable: set<string>)
    returns (found: bool, outPath: string)
    ensures path in openable ==> found && outPath == path
    ensures path !in openable ==> found == (FallbackCandidate(path) in openable)
    ensures path !in openable && found ==> outPath == FallbackCandidate(path)
    ensures !found ==> outPath == path
    ensures found <==> outPath in openable
  {
    var extension := GetFileExtension(path);
    ghost var original := extension;
    var filenameWithoutExtension := GetFileNameWithoutExtension(path);
    var directoryPath := GetDirectoryPath(path);
    if extension == "vs" {
      extension := ".vert";
    } else if extension == "fs" {
      extension := ".frag";
    } else if extension == "gs" {
      extension := ".geom";
    }
    assert extension == MapShaderExtension(original);
    var fullPath := directoryPath + filenameWithoutExtension + extension;
    assert "Shader/" + fullPath == FallbackCandidate(path);
    outPath := path;
    if path in openable {
      return true, outPath;
    }
    var validPath := "Shader/" + fullPath;
    if validPath !in openable {
      return false, outPath;
    }
    outPath := validPath;
    found := true;
  }

  /** Resolution is idempotent: a resolved path that opens resolves to itself. */
  lemma ResolutionIsStable(path: string, openable: set<string>)
    ensures ResolvedPath(path, openable) in openable ==>
      ResolvedPath(ResolvedPath(path, openable), openable) == ResolvedPath(path, openable)
    ensures ResolvedPath(path, openable) !in openable ==> ResolvedPath(path, openable) == path
  {
  }

  /** For a path "dir/stem.ext", the fallback keeps directory and stem and maps the extension. */
  lemma FallbackOfSplitPath(dir: string, stem: string, ext: string)
    requires PathSeparator !in stem && '.' !in ext && PathSeparator !in ext
    ensures FallbackCandidate(dir + [PathSeparator] + stem + "." + ext) ==
      "Shader/" + (dir + stem + MapShaderExtension(ext))
  {
    var path := dir + [PathSeparator] + stem + "." + ext;
    PartsOfSplitPath(dir, stem, ext);
    assert GetDirectoryPath(path) == dir;
    assert GetFileNameWithoutExtension(path) == stem;
    assert GetFileExtension(path) == ext;
  }

  /** The three parts the fallback is assembled from, for a path "dir/stem.ext". */
  lemma PartsOfSplitPath(dir: string, stem: string, ext: string)
    requires PathSeparator !in stem && '.' !in ext && PathSeparator !in ext
    ensures var path := dir + [PathSeparator] + stem + "." + ext;
      GetDirectoryPath(path) == dir && GetFileNameWithoutExtension(path) == stem && GetFileExtension(path) == ext
  {
    var name := stem + "." + ext;
    NoSeparatorInFileName(stem, ext);
    var path := dir + [PathSeparator] + stem + "." + ext;
    assert path == dir + [PathSeparator] + name;
    SplitOfJoin(dir, name);
    StemAndExtensionOfJoin(stem, ext);
  }

  /** "stem.ext" has no separator when neither part has one. */
  lemma NoSeparatorInFileName(stem: string, ext: string)
    requires PathSeparator !in stem && PathSeparator !in ext
    ensures PathSeparator !in stem + "." + ext
  {
    var name := stem + "." + ext;
    forall i | 0 <= i < |name| ensures name[i] != PathSeparator {
      if i < |stem| { assert name[i] == stem[i]; }
      else if i > |stem| { assert name[i] == ext[i - |stem| - 1]; }
    }
  }

  /** "stem.ext" splits at its last dot into stem and ext when ext has no dot. */
  lemma StemAndExtensionOfJoin(stem: string, ext: string)
    requires '.' !in ext
    ensures var name := stem + "." + ext;
      LastIndexOf(name, '.') == Some(|stem|) && name[..|stem|] == stem && name[|stem| + 1..] == ext
  {
    LastDotOfJoin(stem, ext);
    var name := stem + "." + ext;
    assert name[..|stem|] == stem && name[|stem| + 1..] == ext;
  }

  lemma {:induction false} LastDotOfJoin(stem: string, ext: string)
    requires '.' !in ext
    ensures LastIndexOf(stem + "." + ext, '.') == Some(|stem|)
    decreases |ext|
  {
    var s := stem + "." + ext;
    if ext != [] {
      assert s[..|s| - 1] == stem + "." + ext[..|ext| - 1];
      LastDotOfJoin(stem, ext[..|ext| - 1]);
    }
  }

  /** The text program's vertex shader falls back to the .vert file under Shader/, its directory's separator dropped. */
  lemma TextVertexShaderFallback()
    ensures FallbackCandidate("TextRendering/text.vs") == "Shader/TextRenderingtext.vert"
  {
    var dir, stem, ext := "TextRendering", "text", "vs";
    assert MapShaderExtension(ext) == ".vert";
    assert "Shader/" + (dir + stem + ".vert") == "Shader/TextRenderingtext.vert";
    assert "TextRendering/text.vs" == dir + [PathSeparator] + stem + "." + ext;
    FallbackOfSplitPath(dir, stem, ext);
  }

  /** The text program's fragment shader falls back to the .frag file under Shader/. */
  lemma TextFragmentShaderFallback()
    ensures FallbackCandidate("TextRendering/text.fs") == "Shader/TextRenderingtext.frag"
  {
    var dir, stem, ext := "TextRendering", "text", "fs";
    assert MapShaderExtension(ext) == ".frag";
    assert "Shader/" + (dir + stem + ".frag") == "Shader/TextRenderingtext.frag";
    assert "TextRendering/text.fs" == dir + [PathSeparator] + stem + "." + ext;
    FallbackOfSplitPath(dir, stem, ext);
  }

  /** Any other extension is appended without its dot. */
  lemma OtherExtensionLosesDot()
    ensures FallbackCandidate("a/b.txt") == "Shader/abtxt"
  {
    var dir, stem, ext := "a", "b", "txt";
    assert MapShaderExtension(ext) == ext;
    assert "Shader/" + (dir + stem + ext) == "Shader/abtxt";
    assert "a/b.txt" == dir + [PathSeparator] + stem + "." + ext;
    FallbackOfSplitPath(dir, stem, ext);
  }

  datatype StageKind = VertexStage | FragmentStage | GeometryStage

  /** A shader object compiled from `path` and attached to the program. */
  datatype Stage = Stage(kind: StageKind, path: string)

  /** The stage internal_generateShaderProgram attaches, if any: none for a null or empty path. */
  function StageFor(path: Option<string>, kind: StageKind): seq<Stage> {
    if path.None? || path.value == [] then [] else [Stage(kind, path.value)]
  }

  /** The paths the constructor hands to generateShaderProgram. */
  function ConstructorPaths(vertexPath: Option<string>, fragmentPath: Option<string>,
                            geometryPath: Option<string>, openable: set<string>): (string, string, string)
  {
    (ResolvedPath(vertexPath.GetOr(""), openable),
     ResolvedPath(fragmentPath.GetOr(""), openable),
     if geometryPath.Some? then ResolvedPath(geometryPath.value, openable) else "")
  }

  /** Lines 71-81 of the Shader constructor: vertex and fragment are always resolved, geometry only when given. */
  method ResolveShaderPaths(vertexPath: Option<string>, fragmentPath: Option<string>,
                            geometryPath: Option<string>, openable: set<string>)
    returns (vertexPathStr: string, fragmentPathStr: string, geometryPathStr: string)
    ensures (vertexPathStr, fragmentPathStr, geometryPathStr) ==
      ConstructorPaths(vertexPath, fragmentPath, geometryPath, openable)
    ensures geometryPath.None? ==> geometryPathStr == ""
    ensures vertexPathStr in openable || vertexPathStr == vertexPath.GetOr("")
  {
    var found: bool;
    vertexPathStr := vertexPath.GetOr("");
    found, vertexPathStr := CheckFileExistAndReplaceRightPath(vertexPathStr, openable);
    fragmentPathStr := fragmentPath.GetOr("");
    found, fragmentPathStr := CheckFileExistAndReplaceRightPath(fragmentPathStr, openable);
    geometryPathStr := geometryPath.GetOr("");
    if geometryPath.Some? {
      found, geometryPathStr := CheckFileExistAndReplaceRightPath(geometryPathStr, openable);
    }
  }

  /**
   * The program object of the Shader class: `ID` (0 until glCreateProgram is
   * first needed) and the shader stages attached to it, in order.
   */
  class Shader {
    var ID: nat
    var stages: seq<Stage>

    /** Shader(vertexPath, fragmentPath, geometryPath); `newProgram` is what glCreateProgram returns. */
    constructor (vertexPath: Option<string>, fragmentPath: Option<string>, geometryPath: Option<string>,
                 openable: set<string>, newProgram: nat)
      ensures
        var (v, f, g) := ConstructorPaths(vertexPath, fragmentPath, geometryPath, openable);
        stages == StageFor(Some(v), VertexStage) + StageFor(Some(f), FragmentStage) + StageFor(Some(g), GeometryStage)
      ensures ID == (if stages == [] then 0 else newProgram)
    {
      ID := 0;
      stages := [];
      new;
      var v, f, g := ResolveShaderPaths(vertexPath, fragmentPath, geometryPath, openable);
      GenerateShaderProgram(Some(v), Some(f), Some(g), newProgram);
    }

    method GenerateShaderProgram(vertexPath: Option<string>, fragmentPath: Option<string>,
                                 geometryPath: Option<string>, newProgram: nat)
      modifies this
      ensures stages == old(stages) + StageFor(vertexPath, VertexStage)
        + StageFor(fragmentPath, FragmentStage) + StageFor(geometryPath, GeometryStage)
      ensures ID == (if old(ID) == 0 && stages != old(stages) then newProgram else old(ID))
    {
      InternalGenerateShaderProgram(vertexPath, VertexStage, newProgram);
      InternalGenerateShaderProgram(fragmentPath, FragmentStage, newProgram);
      InternalGenerateShaderProgram(geometryPath, GeometryStage, newProgram);
    }

    /** Nothing happens for a null or empty path; the program is created only while ID is 0. */
    method InternalGenerateShaderProgram(path: Option<string>, kind: StageKind, newProgram: nat)
      modifies this
      ensures stages == old(stages) + StageFor(path, kind)
      ensures ID == (if old(ID) == 0 && StageFor(path, kind) != [] then newProgram else old(ID))
    {
      if path.None? || path.value == [] {
        return;
      }
      if ID == 0 {
        ID := newProgram;
      }
      stages := stages + [Stage(kind, path.value)];
    }
  }
}
