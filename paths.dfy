/**
 * Path translation of the mirror: the on-disk path of a Dokan file name
 * (GetFilePath), the cache path handed to the sync engine (transformPath)
 * and the placeholder path of a remote listing item (completePath in
 * contentsOfDirectoryAtPath).
 */
module Paths {
  import opened Types

  /** DOKAN_MAX_PATH without WIN10_ENABLE_LONG_PATH: MAX_PATH. */
  const MAX_PATH: nat := 260

  /** The folding _wcsnicmp applies in the "C" locale. */
  function ToLowerChar(c: char): char {
    if 'A' <= c <= 'Z' then (c as int + 32) as char else c
  }

  /** _wcsnicmp(fileName, unc, |unc|) == 0: `unc` is a case-insensitive prefix of `fileName`. */
  predicate NoCasePrefix(unc: string, fileName: string) {
    |unc| <= |fileName| &&
    forall i :: 0 <= i < |unc| ==> ToLowerChar(unc[i]) == ToLowerChar(fileName[i])
  }

  /**
   * The string GetFilePath assembles from RootDirectory, UNCName and the
   * requested name: the root, then the name with a matching UNC prefix cut
   * off; a remainder starting with "." is dropped altogether.
   */
  function MirrorPath(root: string, unc: string, fileName: string): (r: string)
    ensures root <= r
    ensures |unc| == 0 || !NoCasePrefix(unc, fileName) ==> r[|root|..] == fileName
    ensures |unc| > 0 && NoCasePrefix(unc, fileName) ==>
              r[|root|..] == (if |fileName| > |unc| && fileName[|unc|] == '.' then "" else fileName[|unc|..])
  {
    if |unc| > 0 && NoCasePrefix(unc, fileName) then
      var rest := fileName[|unc|..];
      if |rest| > 0 && rest[0] == '.' then root else root + rest
    else
      root + fileName
  }

  /**
   * GetFilePath with its buffer of MAX_PATH wide characters: wcsncpy_s and
   * wcsncat_s refuse (and call the invalid-parameter handler) when the text
   * and its terminator do not fit. None stands for that refusal.
   */
  function GetFilePath(root: string, unc: string, fileName: string): (r: Option<string>)
    ensures r.Some? <==> |MirrorPath(root, unc, fileName)| < MAX_PATH
    ensures r.Some? ==> root <= r.value && r.value == MirrorPath(root, unc, fileName)
  {
    var p := MirrorPath(root, unc, fileName);
    if |p| < MAX_PATH then Some(p) else None
  }

  /** Without a UNC name, distinct file names have distinct mirror paths. */
  lemma MirrorPathInjective(root: string, a: string, b: string)
    requires MirrorPath(root, "", a) == MirrorPath(root, "", b)
    ensures a == b
  {
    assert a == MirrorPath(root, "", a)[|root|..];
  }

  /** With a UNC name, every name whose remainder starts with "." lands on the root itself. */
  lemma UncDotNamesCollapse(root: string, unc: string, tail: string)
    requires |unc| > 0
    ensures MirrorPath(root, unc, unc + "." + tail) == root
  {
    var f := unc + "." + tail;
    assert f[..|unc|] == unc;
    assert f[|unc|] == '.';
    assert NoCasePrefix(unc, f) by {
      forall i | 0 <= i < |unc| ensures ToLowerChar(unc[i]) == ToLowerChar(f[i]) {
        assert f[i] == unc[i];
      }
    }
  }

  /** The cache directory prefix: AppDataLocation + "/cachedFiles/". */
  function CachePrefix(appData: string): string {
    appData + "/cachedFiles/"
  }

  /** The cache directory itself, without the trailing separator. */
  function CacheRoot(appData: string): string {
    appData + "/cachedFiles"
  }

  /**
   * transformPath: QString::replace(0, 1, prefix) swaps the first character
   * (the leading separator) for the cache prefix; on an empty string it
   * inserts the prefix.
   */
  function TransformPath(appData: string, oldPath: string): (r: string)
    ensures CachePrefix(appData) <= r
    ensures |r| == |CachePrefix(appData)| + (if |oldPath| == 0 then 0 else |oldPath| - 1)
    ensures |oldPath| > 0 ==> r[|CachePrefix(appData)|..] == oldPath[1..]
  {
    CachePrefix(appData) + (if |oldPath| == 0 then "" else oldPath[1..])
  }

  /** Two paths with the same leading character translate to the same cache path only if they are equal. */
  lemma TransformPathInjective(appData: string, a: string, b: string)
    requires |a| > 0 && |b| > 0 && a[0] == b[0]
    requires TransformPath(appData, a) == TransformPath(appData, b)
    ensures a == b
  {
    assert a == [a[0]] + a[1..];
    assert b == [b[0]] + b[1..];
  }

  /** Translating an already translated path does not give it back: transformPath is not idempotent. */
  lemma TransformPathNotIdempotent(appData: string, p: string)
    requires |p| > 0
    ensures TransformPath(appData, TransformPath(appData, p)) != TransformPath(appData, p)
  {
  }

  /** QString::replace("\\", "/"): every backslash becomes a slash. */
  function ToSlash(s: string): (r: string)
    ensures |r| == |s|
    ensures '\\' !in r
  {
    if s == [] then [] else [if s[0] == '\\' then '/' else s[0]] + ToSlash(s[1..])
  }

  lemma {:induction false} ToSlashAt(s: string, i: nat)
    requires i < |s|
    ensures ToSlash(s)[i] == if s[i] == '\\' then '/' else s[i]
  {
    if i > 0 {
      ToSlashAt(s[1..], i - 1);
    }
  }

  lemma {:induction false} ToSlashConcat(a: string, b: string)
    ensures ToSlash(a + b) == ToSlash(a) + ToSlash(b)
  {
    if a != [] {
      assert (a + b)[1..] == a[1..] + b;
      ToSlashConcat(a[1..], b);
    } else {
      assert a + b == b;
    }
  }

  lemma {:induction false} ToSlashIdentity(s: string)
    requires '\\' !in s
    ensures ToSlash(s) == s
  {
    if s != [] {
      ToSlashIdentity(s[1..]);
      assert s == [s[0]] + s[1..];
    }
  }

  /** Ends(s, c): the last character of s is c. */
  predicate EndsWith(s: string, c: char) {
    |s| > 0 && s[|s| - 1] == c
  }

  /** rootPath with one trailing "/" removed. */
  function TrimmedRoot(rootPath: string): string {
    if EndsWith(rootPath, '/') then rootPath[..|rootPath| - 1] else rootPath
  }

  /** A listing path with a trailing "/" ensured. */
  function DirSlash(path: string): (r: string)
    ensures EndsWith(r, '/')
  {
    if EndsWith(path, '/') then path else path + "/"
  }

  /**
   * completePath in contentsOfDirectoryAtPath: the mount root without one
   * trailing "/", the listed directory with a trailing "/", the item name.
   */
  function CompletePath(rootPath: string, path: string, name: string): string {
    TrimmedRoot(rootPath) + DirSlash(path) + name
  }

  /** completePath starts with the trimmed root and ends with "/" and the name. */
  lemma CompletePathShape(rootPath: string, path: string, name: string)
    ensures var r := CompletePath(rootPath, path, name);
            && TrimmedRoot(rootPath) <= r
            && |r| > |name| && r[|r| - |name| - 1] == '/' && r[|r| - |name|..] == name
  {
  }

  /** Two items of one listing get the same placeholder path only if their names are equal. */
  lemma CompletePathInjective(rootPath: string, path: string, a: string, b: string)
    requires CompletePath(rootPath, path, a) == CompletePath(rootPath, path, b)
    ensures a == b
  {
    var pre := TrimmedRoot(rootPath) + DirSlash(path);
    assert CompletePath(rootPath, path, a)[|pre|..] == a;
    assert CompletePath(rootPath, path, b)[|pre|..] == b;
  }

  /** The Dokan file name of item `name` inside the directory named `dir`. */
  function Child(dir: string, name: string): string {
    if EndsWith(dir, '\\') then dir + name else dir + "\\" + name
  }

  lemma ToSlashEnds(dir: string)
    requires '/' !in dir
    ensures EndsWith(ToSlash(dir), '/') <==> EndsWith(dir, '\\')
  {
    if |dir| > 0 {
      ToSlashAt(dir, |dir| - 1);
    }
  }

  lemma ToSlashSeparator()
    ensures ToSlash("\\") == "/"
  {
    assert "\\"[1..] == [];
  }

  /** ToSlash(Child(dir, name)) is the slash form of the directory with a trailing "/", then the name. */
  lemma ChildSlash(dir: string, name: string)
    requires '/' !in dir && '\\' !in name
    ensures ToSlash(Child(dir, name)) == DirSlash(ToSlash(dir)) + name
  {
    ToSlashEnds(dir);
    ToSlashIdentity(name);
    if EndsWith(dir, '\\') {
      ToSlashConcat(dir, name);
    } else {
      ToSlashConcat(dir + "\\", name);
      ToSlashConcat(dir, "\\");
      ToSlashSeparator();
    }
  }

  /**
   * The placeholder a listing of directory `dir` creates for `name` is the
   * mirror path a later CreateFile on the child computes, once both are
   * written with slashes: mount copies rootPath into RootDirectory, so the
   * two roots agree.
   */
  lemma PlaceholderIsMirrorPath(root: string, dir: string, name: string)
    requires '\\' !in root && !EndsWith(root, '/')
    requires '/' !in dir && '\\' !in name
    ensures ToSlash(MirrorPath(root, "", Child(dir, name))) == CompletePath(root, ToSlash(dir), name)
  {
    var child := Child(dir, name);
    assert MirrorPath(root, "", child) == root + child;
    ToSlashConcat(root, child);
    ToSlashIdentity(root);
    ChildSlash(dir, name);
    ConcatAssoc(root, DirSlash(ToSlash(dir)), name);
  }

  /**
   * FindFiles and DeleteDirectory: the mirror path with a trailing "\" ensured,
   * then the wildcard "*". The source reads the last character, so the path
   * must not be empty.
   */
  function SearchPattern(filePath: string): (r: string)
    requires |filePath| > 0
    ensures filePath <= r
    ensures |r| >= 2 && r[|r| - 2..] == "\\*"
    ensures |r| == |filePath| + (if EndsWith(filePath, '\\') then 1 else 2)
  {
    (if EndsWith(filePath, '\\') then filePath else filePath + "\\") + "*"
  }

  /**
   * As written, the pattern is built in the MAX_PATH buffer that GetFilePath
   * filled, with no bound check: a mirror path of MAX_PATH - 1 characters,
   * or of MAX_PATH - 2 not ending in "\", leaves no room for the pattern and
   * its terminator, so the writes run past the buffer.
   */
  lemma SearchPatternOverruns(filePath: string)
    requires |filePath| == MAX_PATH - 1 || (|filePath| == MAX_PATH - 2 && !EndsWith(filePath, '\\'))
    ensures |filePath| < MAX_PATH
    ensures |SearchPattern(filePath)| + 1 > MAX_PATH
  {
  }

  /** A name GetFilePath accepts under the root "C:" whose search pattern does not fit. */
  lemma SearchPatternOverrunExample()
    ensures var name := "\\" + seq(255, _ => 'a');
            && GetFilePath("C:", "", name) == Some("C:" + name)
            && |SearchPattern("C:" + name)| + 1 == MAX_PATH + 1
  {
    var name := "\\" + seq(255, _ => 'a');
    assert MirrorPath("C:", "", name) == "C:" + name;
    assert ("C:" + name)[|"C:" + name| - 1] == 'a';
  }
}
