/**
 * The string-only part of the FileSystem helpers (POSIX build): separator
 * normalisation, path combination, and splitting a path into directory,
 * file name, stem and extension.
 *
 * NormalizePath is modelled exactly as written, including the operator
 * precedence slip in its de-duplication loop: `pos` receives the boolean
 * `find("//") != npos`, so every iteration rewrites characters 1 and 2, not
 * the separator pair that was found. The loop therefore only terminates for
 * some inputs, and that is the precondition of NormalizePath here.
 */
module FileSystem {
  import opened Common

  const PathSeparator: char := '/'
  const AltPathSeparator: char := '\\'

  /** `std::replace(result.begin(), result.end(), ALT_PATH_SEPARATOR, PATH_SEPARATOR)`. */
  function ReplaceAlt(s: string): (r: string)
    ensures |r| == |s|
    ensures forall i :: 0 <= i < |s| ==> r[i] == (if s[i] == AltPathSeparator then PathSeparator else s[i])
    ensures AltPathSeparator !in r
  {
    if s == [] then []
    else [if s[0] == AltPathSeparator then PathSeparator else s[0]] + ReplaceAlt(s[1..])
  }

  /** The string contains two separators in a row (`find("//") != npos`). */
  predicate HasDoubleSep(s: string) {
    exists i | 0 <= i < |s| - 1 :: s[i] == PathSeparator && s[i + 1] == PathSeparator
  }

  /**
   * One iteration of the de-duplication loop: `result.replace(1, 2, "/")`.
   * The position is always 1; on a two-character string only one character
   * is left to replace, so the string is rebuilt unchanged.
   */
  function DedupStep(s: string): (r: string)
    requires |s| >= 2
    ensures |s| >= 3 ==> |r| == |s| - 1 && r[2..] == s[3..]
    ensures |s| == 2 ==> |r| == 2
    ensures r[0] == s[0] && r[1] == PathSeparator
  {
    s[..1] + [PathSeparator] + (if |s| >= 3 then s[3..] else [])
  }

  /** The de-duplication loop started on `s` reaches a string without "//". */
  predicate DedupTerminates(s: string)
    decreases |s|
  {
    !HasDoubleSep(s) || (|s| >= 3 && DedupTerminates(DedupStep(s)))
  }

  /** The string the de-duplication loop ends with. */
  function Dedup(s: string): (r: string)
    requires DedupTerminates(s)
    ensures !HasDoubleSep(r)
    ensures |r| <= |s|
    ensures |s| > 0 ==> |r| > 0 && r[0] == s[0]
    ensures forall i :: 0 <= i < |r| ==> r[i] == PathSeparator || r[i] in s
    decreases |s|
  {
    if !HasDoubleSep(s) then s else Dedup(DedupStep(s))
  }

  /** Drop a leading "./" once, when `find("./") == 0`. */
  function StripDotSlash(s: string): string {
    if |s| >= 2 && s[0] == '.' && s[1] == '/' then s[2..] else s
  }

  /** Drop one trailing separator when the string is longer than one character. */
  function StripTrailingSep(s: string): string {
    if |s| > 1 && s[|s| - 1] == PathSeparator then s[..|s| - 1] else s
  }

  /** Precondition of NormalizePath: the de-duplication loop terminates on it. */
  predicate NormalizeTerminates(path: string) {
    DedupTerminates(ReplaceAlt(path))
  }

  /** What NormalizePath returns. */
  function Normalized(path: string): (r: string)
    requires NormalizeTerminates(path)
    ensures AltPathSeparator !in r
    ensures !HasDoubleSep(r)
    ensures |r| > 1 ==> r[|r| - 1] != PathSeparator
    ensures |r| <= |path|
  {
    var d := Dedup(ReplaceAlt(path));
    DedupAddsNoAlt(ReplaceAlt(path));
    StripsKeepNormalForm(d);
    StripTrailingSep(StripDotSlash(d))
  }

  /** The de-duplication loop introduces no alternative separator. */
  lemma DedupAddsNoAlt(s: string)
    requires DedupTerminates(s) && AltPathSeparator !in s
    ensures AltPathSeparator !in Dedup(s)
  {
    var d := Dedup(s);
    assert forall i :: 0 <= i < |d| ==> d[i] != AltPathSeparator;
  }

  /** The two final strips keep a de-duplicated string free of "//" and leave no trailing separator. */
  lemma StripsKeepNormalForm(d: string)
    requires AltPathSeparator !in d && !HasDoubleSep(d)
    ensures var r := StripTrailingSep(StripDotSlash(d));
      AltPathSeparator !in r && !HasDoubleSep(r) && (|r| > 1 ==> r[|r| - 1] != PathSeparator) && |r| <= |d|
  {
    var e := StripDotSlash(d);
    assert !HasDoubleSep(e) by {
      if e != d {
        forall i | 0 <= i < |e| - 1 ensures !(e[i] == PathSeparator && e[i + 1] == PathSeparator) {
          assert e[i] == d[i + 2] && e[i + 1] == d[i + 3];
        }
      }
    }
    var r := StripTrailingSep(e);
    assert |r| > 1 && r != e ==> r[|r| - 1] == e[|e| - 2];
    assert forall i :: 0 <= i < |r| ==> r[i] in d;
  }

  /** FileSystem::NormalizePath, step by step on a mutable copy of the path. */
  method NormalizePath(path: string) returns (result: string)
    requires NormalizeTerminates(path)
    ensures result == Normalized(path)
  {
    result := ReplaceSeparators(path);
    result := RemoveDoubleSeparators(result);
    result := StripEnds(result);
  }

  /** The last two steps of NormalizePath: a leading "./" once, then one trailing separator. */
  method StripEnds(d: string) returns (result: string)
    ensures result == StripTrailingSep(StripDotSlash(d))
  {
    result := d;
    if |result| >= 2 && result[0] == '.' && result[1] == '/' {
      result := result[2..];
    }
    ghost var e := result;
    assert e == StripDotSlash(d);
    if |result| > 1 && result[|result| - 1] == PathSeparator {
      result := result[..|result| - 1];
    }
  }

  /** The `std::replace` pass of NormalizePath, one character at a time. */
  method ReplaceSeparators(path: string) returns (result: string)
    ensures result == ReplaceAlt(path)
  {
    result := path;
    var i := 0;
    while i < |result|
      invariant 0 <= i <= |result| == |path|
      invariant forall k :: 0 <= k < i ==> result[k] == ReplaceAlt(path)[k]
      invariant forall k :: i <= k < |result| ==> result[k] == path[k]
    {
      if result[i] == AltPathSeparator {
        result := result[i := PathSeparator];
      }
      i := i + 1;
    }
  }

  /** The de-duplication loop of NormalizePath, with its fixed position 1. */
  method RemoveDoubleSeparators(s: string) returns (result: string)
    requires DedupTerminates(s)
    ensures result == Dedup(s)
  {
    result := s;
    while HasDoubleSep(result)
      invariant DedupTerminates(result)
      invariant Dedup(result) == Dedup(s)
      decreases |result|
    {
      result := result[..1] + [PathSeparator] + result[3..];
    }
  }

  /** The de-duplication loop never ends on a path that starts with a separator and contains "//". */
  lemma {:induction false} RootedDoubleSepNeverTerminates(s: string)
    requires |s| > 0 && s[0] == PathSeparator && HasDoubleSep(s)
    ensures !DedupTerminates(s)
    decreases |s|
  {
    if |s| >= 3 {
      var t := DedupStep(s);
      assert t[0] == PathSeparator && t[1] == PathSeparator;
      RootedDoubleSepNeverTerminates(t);
    }
  }

  /**
   * The de-duplication loop ends exactly when the path does not both start
   * with a separator and contain "//": every step keeps the first character,
   * so a path that does not start with a separator never becomes "//".
   */
  lemma {:induction false} DedupTerminatesExactly(s: string)
    ensures DedupTerminates(s) <==> !(|s| > 0 && s[0] == PathSeparator && HasDoubleSep(s))
    decreases |s|
  {
    if |s| > 0 && s[0] == PathSeparator && HasDoubleSep(s) {
      RootedDoubleSepNeverTerminates(s);
    } else if HasDoubleSep(s) {
      var t := DedupStep(s);
      DedupTerminatesExactly(t);
    }
  }

  /** "/a//b" (and every absolute path with a doubled separator) hangs NormalizePath. */
  lemma RootedPathHangs()
    ensures !NormalizeTerminates("/a//b")
    ensures !NormalizeTerminates("///")
  {
    ReplaceAltKeepsPlainPath("/a//b");
    assert "/a//b"[2] == '/' && "/a//b"[3] == '/';
    RootedDoubleSepNeverTerminates("/a//b");
    ReplaceAltKeepsPlainPath("///");
    assert "///"[0] == '/' && "///"[1] == '/';
    RootedDoubleSepNeverTerminates("///");
  }

  /** Paths without the alternative separator are left alone by the first pass. */
  lemma ReplaceAltKeepsPlainPath(s: string)
    requires AltPathSeparator !in s
    ensures ReplaceAlt(s) == s
  {
    assert forall i :: 0 <= i < |s| ==> ReplaceAlt(s)[i] == s[i];
  }

  /** "a//b" comes out as "a/b": the pair sits at positions 1 and 2 already. */
  lemma DoubleSepAtPositionOne()
    ensures NormalizeTerminates("a//b") && Normalized("a//b") == "a/b"
  {
    ReplaceAltKeepsPlainPath("a//b");
    assert "a//b"[1] == '/' && "a//b"[2] == '/';
    assert DedupStep("a//b") == "a/b";
    assert !HasDoubleSep("a/b");
  }

  /**
   * Because the rewrite happens at position 1, a doubled separator further
   * right costs the characters between position 1 and it: "ab//c" becomes "a/c".
   */
  lemma DoubleSepAfterPositionOneLosesCharacters()
    ensures NormalizeTerminates("ab//c") && Normalized("ab//c") == "a/c"
  {
    ReplaceAltKeepsPlainPath("ab//c");
    assert "ab//c"[2] == '/' && "ab//c"[3] == '/';
    assert DedupStep("ab//c") == "a//c";
    assert "a//c"[1] == '/' && "a//c"[2] == '/';
    assert DedupStep("a//c") == "a/c";
    assert !HasDoubleSep("a/c");
  }

  /** A path with neither alternative nor doubled separators is only stripped at its ends. */
  lemma NormalizedPlainPath(p: string)
    requires AltPathSeparator !in p && !HasDoubleSep(p)
    ensures NormalizeTerminates(p) && Normalized(p) == StripTrailingSep(StripDotSlash(p))
  {
    ReplaceAltKeepsPlainPath(p);
  }

  /** A leading "./" is removed once only, and a trailing separator is dropped. */
  lemma DotSlashStrippedOnce()
    ensures NormalizeTerminates("././a/") && Normalized("././a/") == "./a"
  {
    var p := "././a/";
    assert !HasDoubleSep(p);
    NormalizedPlainPath(p);
    assert StripDotSlash(p) == "./a/";
  }

  /** The last index of `c` in `s` (`find_last_of`). */
  function LastIndexOf(s: string, c: char): (r: Option<nat>)
    ensures r.None? <==> c !in s
    ensures r.Some? ==> r.value < |s| && s[r.value] == c && c !in s[r.value + 1..]
  {
    if |s| == 0 then None
    else if s[|s| - 1] == c then Some(|s| - 1)
    else
      var r := LastIndexOf(s[..|s| - 1], c);
      assert s == s[..|s| - 1] + [s[|s| - 1]];
      r
  }

  /** FileSystem::GetDirectoryPath: everything before the last separator, or "". */
  function GetDirectoryPath(path: string): string {
    match LastIndexOf(path, PathSeparator)
    case None => ""
    case Some(pos) => path[..pos]
  }

  /** FileSystem::GetFileName: everything after the last separator, or the whole path. */
  function GetFileName(path: string): string {
    match LastIndexOf(path, PathSeparator)
    case None => path
    case Some(pos) => path[pos + 1..]
  }

  /** FileSystem::GetFileExtension: what follows the last '.' of the file name, or "". */
  function GetFileExtension(path: string): string {
    var filename := GetFileName(path);
    match LastIndexOf(filename, '.')
    case None => ""
    case Some(pos) => filename[pos + 1..]
  }

  /** FileSystem::GetFileNameWithoutExtension: the file name up to its last '.'. */
  function GetFileNameWithoutExtension(path: string): string {
    var filename := GetFileName(path);
    match LastIndexOf(filename, '.')
    case None => filename
    case Some(pos) => filename[..pos]
  }

  /** Directory and file name split the path at its last separator. */
  lemma DirectoryAndFileNameSplitPath(path: string)
    ensures PathSeparator !in GetFileName(path)
    ensures PathSeparator in path ==> GetDirectoryPath(path) + [PathSeparator] + GetFileName(path) == path
    ensures PathSeparator !in path ==> GetDirectoryPath(path) == "" && GetFileName(path) == path
  {
    match LastIndexOf(path, PathSeparator)
    case None =>
    case Some(pos) =>
      assert path == path[..pos] + [path[pos]] + path[pos + 1..];
  }

  /** Stem and extension split the file name at its last '.'. */
  lemma StemAndExtensionSplitFileName(path: string)
    ensures '.' !in GetFileExtension(path)
    ensures '.' in GetFileName(path) ==>
      GetFileNameWithoutExtension(path) + "." + GetFileExtension(path) == GetFileName(path)
    ensures '.' !in GetFileName(path) ==>
      GetFileExtension(path) == "" && GetFileNameWithoutExtension(path) == GetFileName(path)
  {
    var filename := GetFileName(path);
    match LastIndexOf(filename, '.')
    case None =>
    case Some(pos) =>
      assert filename == filename[..pos] + [filename[pos]] + filename[pos + 1..];
  }

  /** CombinePaths reaches `back()` only on a non-empty normalised base, and normalises both sides. */
  predicate CombineDefined(base: string, relative: string) {
    base == [] || relative == [] ||
    (NormalizeTerminates(base) && NormalizeTerminates(relative) &&
     (Normalized(relative) == [] || Normalized(relative)[0] != PathSeparator ==> Normalized(base) != []))
  }

  /**
   * FileSystem::CombinePaths on a POSIX build. An empty side yields the other
   * side as given. Otherwise both sides are normalised; a rooted relative part
   * replaces the base, and any other is appended after exactly one separator
   * (the root "/" already ends in one), so the result has no doubled separator.
   */
  function CombinePaths(base: string, relative: string): (r: string)
    requires CombineDefined(base, relative)
    ensures base == [] ==> r == relative
    ensures base != [] && relative == [] ==> r == base
    ensures base != [] && relative != [] && Normalized(relative) != [] && Normalized(relative)[0] == PathSeparator ==>
      r == Normalized(relative)
    ensures base != [] && relative != [] && (Normalized(relative) == [] || Normalized(relative)[0] != PathSeparator) ==>
      r == (if Normalized(base) == [PathSeparator] then [PathSeparator] else Normalized(base) + [PathSeparator])
        + Normalized(relative)
    ensures base != [] && relative != [] ==> !HasDoubleSep(r)
  {
    if base == [] then relative
    else if relative == [] then base
    else
      var normalizedBase := Normalized(base);
      var normalizedRelative := Normalized(relative);
      if normalizedRelative != [] && normalizedRelative[0] == PathSeparator then normalizedRelative
      else if normalizedBase[|normalizedBase| - 1] == PathSeparator then
        NoDoubleSepAcrossJoin(normalizedBase, normalizedRelative);
        normalizedBase + normalizedRelative
      else
        NoDoubleSepAcrossJoin(normalizedBase, [PathSeparator]);
        NoDoubleSepAcrossJoin(normalizedBase + [PathSeparator], normalizedRelative);
        normalizedBase + [PathSeparator] + normalizedRelative
  }

  /** Gluing two strings without a doubled separator makes none unless one ends and the other starts with a separator. */
  lemma NoDoubleSepAcrossJoin(a: string, b: string)
    requires !HasDoubleSep(a) && !HasDoubleSep(b)
    requires a == [] || b == [] || a[|a| - 1] != PathSeparator || b[0] != PathSeparator
    ensures !HasDoubleSep(a + b)
  {
    var s := a + b;
    forall i | 0 <= i < |s| - 1
      ensures !(s[i] == PathSeparator && s[i + 1] == PathSeparator)
    {
      if i + 1 < |a| {
        assert s[i] == a[i] && s[i + 1] == a[i + 1];
      } else if i >= |a| {
        assert s[i] == b[i - |a|] && s[i + 1] == b[i + 1 - |a|];
      }
    }
  }

  /**
   * Splitting a combined path recovers its parts: when the normalised
   * relative part is a plain, non-empty file name, it is the file name of
   * the result and the normalised base is its directory (the root "/" gives
   * the directory "", as GetDirectoryPath cuts before the last separator).
   */
  lemma {:induction false} CombineThenSplit(base: string, relative: string)
    requires base != [] && relative != [] && CombineDefined(base, relative)
    requires PathSeparator !in Normalized(relative) && Normalized(relative) != []
    ensures GetFileName(CombinePaths(base, relative)) == Normalized(relative)
    ensures GetDirectoryPath(CombinePaths(base, relative)) ==
      (if Normalized(base) == [PathSeparator] then "" else Normalized(base))
  {
    var b, n := Normalized(base), Normalized(relative);
    assert n[0] != PathSeparator;
    JoinThenSplit(b, n);
  }

  /** The last branch of CombinePaths, split again: the separator it adds (or finds) is the last one. */
  lemma JoinThenSplit(b: string, n: string)
    requires b != [] && (|b| > 1 ==> b[|b| - 1] != PathSeparator)
    requires PathSeparator !in n
    ensures var r := if b[|b| - 1] == PathSeparator then b + n else b + [PathSeparator] + n;
      GetFileName(r) == n && GetDirectoryPath(r) == (if b == [PathSeparator] then "" else b)
  {
    if b[|b| - 1] == PathSeparator {
      assert b == [PathSeparator] && b + n == [] + [PathSeparator] + n;
      SplitOfJoin([], n);
    } else {
      SplitOfJoin(b, n);
    }
  }

  lemma {:induction false} LastSeparatorOfJoin(dir: string, name: string)
    requires PathSeparator !in name
    ensures LastIndexOf(dir + [PathSeparator] + name, PathSeparator) == Some(|dir|)
    decreases |name|
  {
    var s := dir + [PathSeparator] + name;
    if name == [] {
    } else {
      assert s[..|s| - 1] == dir + [PathSeparator] + name[..|name| - 1];
      LastSeparatorOfJoin(dir, name[..|name| - 1]);
    }
  }

  /** Joining a directory and a plain file name with a separator is undone by the split. */
  lemma SplitOfJoin(dir: string, name: string)
    requires PathSeparator !in name
    ensures GetDirectoryPath(dir + [PathSeparator] + name) == dir
    ensures GetFileName(dir + [PathSeparator] + name) == name
  {
    var p := dir + [PathSeparator] + name;
    LastSeparatorOfJoin(dir, name);
    assert p[..|dir|] == dir;
    assert p[|dir| + 1..] == name;
  }
}
