/**
 * A file or directory seen by the Android scanner
 * (`filesys/FileInfo.kt`): its path as `java.io.File` keeps it, what the
 * file system reports about it, and the path rules the scanner relies on:
 * directories are the entries without an extension and their path ends
 * in '/', the parent always ends in '/', hidden files have a segment
 * starting with '.', and white-listing compares paths exactly.
 */
module FileInfos {
  import opened Wrappers
  import opened Text

  /** What the file system reports for a path (`Os.stat`, `length()`, creation date, `MimeTypeMap`). */
  datatype DiskFacts = DiskFacts(fileKey: string, length: int, creationDate: int, mimeTypeOfExtension: string)

  /** `FileInfo(path, sha256Hash)`; `rawPath` is the path as `java.io.File` stores it. */
  datatype FileInfo = FileInfo(rawPath: string, sha256Hash: string, disk: DiskFacts)

  /** `File.getName()`: the text after the last '/'. */
  function Name(path: string): (r: string)
    ensures '/' !in r && |r| <= |path| && path[|path| - |r|..] == r
    ensures |r| == |path| || path[|path| - |r| - 1] == '/'
  {
    SplitLast(path, '/');
    var parts := Split(path, '/');
    parts[|parts| - 1]
  }

  /** Kotlin's `File.extension`: the text after the last '.' of the name, "" when the name has none. */
  function Extension(path: string): (r: string)
    ensures '.' !in r && |r| <= |Name(path)|
  {
    var name := Name(path);
    SplitLast(name, '.');
    var parts := Split(name, '.');
    if |parts| == 1 then "" else parts[|parts| - 1]
  }

  /** The extension is what follows the last '.' of the name; it is empty exactly when the name has no '.' or ends in one. */
  lemma ExtensionOfName(path: string)
    ensures var name, r := Name(path), Extension(path);
            (r == "" <==> '.' !in name || name[|name| - 1] == '.') &&
            (r != "" ==> |r| < |name| && name[|name| - |r|..] == r && name[|name| - |r| - 1] == '.')
  {
    LastPiece(Name(path), '.');
  }

  /** `isDirectory()`: an entry is a directory exactly when it has no extension. */
  predicate IsDirectory(f: FileInfo)
  {
    Extension(f.rawPath) == ""
  }

  /** `getPath()`: a directory's path with a '/' added, other paths as stored. */
  function GetPath(f: FileInfo): (r: string)
    ensures IsDirectory(f) && f.rawPath != "" ==> |r| == |f.rawPath| + 1 && r[|r| - 1] == '/' && r[..|f.rawPath|] == f.rawPath
    ensures !IsDirectory(f) || f.rawPath == "" ==> r == f.rawPath
  {
    if IsDirectory(f) && f.rawPath != "" then f.rawPath + "/" else f.rawPath
  }

  /** `java.io.File.getParent()` on a Unix path: up to the last '/', keeping a leading '/'; none when there is no parent. */
  function JavaParent(path: string): (r: Option<string>)
    ensures r.None? <==> '/' !in path || path == "/"
    ensures r.Some? ==> |r.value| < |path| && path[..|r.value|] == r.value
  {
    var index := LastIndexOf(path, '/');
    var prefixLength := if |path| > 0 && path[0] == '/' then 1 else 0;
    if index < prefixLength then
      if prefixLength > 0 && |path| > prefixLength then Some(path[..prefixLength]) else None
    else Some(path[..index])
  }

  /** `getParent()`: the parent with '/' appended, where a missing parent prints as "null". */
  function GetParent(f: FileInfo): (r: string)
    ensures |r| >= 1 && r[|r| - 1] == '/'
  {
    var p := JavaParent(f.rawPath);
    (if p.None? then "null" else p.value) + "/"
  }

  /** `getMimeType`: the MIME type for the extension, "" without one. */
  function GetMimeType(f: FileInfo): (r: string)
    ensures IsDirectory(f) ==> r == ""
  {
    if Extension(f.rawPath) != "" then f.disk.mimeTypeOfExtension else ""
  }

  /** The parent of an entry inside a directory is that directory's path. */
  lemma ParentIsDirectoryPath(dir: FileInfo, child: FileInfo)
    requires IsDirectory(dir) && dir.rawPath != ""
    requires exists name :: name != "" && '/' !in name && child.rawPath == dir.rawPath + "/" + name
    ensures GetParent(child) == GetPath(dir)
  {
    var name :| name != "" && '/' !in name && child.rawPath == dir.rawPath + "/" + name;
    var p := child.rawPath;
    var d := dir.rawPath;
    assert p[|d|] == '/';
    assert p[..|d|] == d;
    assert forall k :: |d| < k < |p| ==> p[k] == name[k - |d| - 1];
    assert LastIndexOf(p, '/') == |d|;
  }

  /** The root-level entry "/a" has the parent "//", not "/". */
  lemma TopLevelParent(f: FileInfo)
    requires exists name :: name != "" && '/' !in name && f.rawPath == "/" + name
    ensures GetParent(f) == "//"
  {
    var name :| name != "" && '/' !in name && f.rawPath == "/" + name;
    assert forall k :: 0 <= k < |name| ==> name[k] != '/';
    assert forall k :: 0 < k < |f.rawPath| ==> f.rawPath[k] == name[k - 1];
    assert f.rawPath[0] == '/';
    var index := LastIndexOf(f.rawPath, '/');
    assert index >= 0;
    assert index == 0;
  }

  /** `isHiddenFile()`: the path contains "/.". */
  predicate IsHiddenFile(f: FileInfo)
  {
    exists i :: 0 <= i < |GetPath(f)| - 1 && GetPath(f)[i] == '/' && GetPath(f)[i + 1] == '.'
  }

  /** Everything under a hidden directory is hidden, and so is every entry whose name starts with '.'. */
  lemma HiddenBelow(dir: FileInfo, child: FileInfo, name: string)
    requires dir.rawPath != "" && name != ""
    requires child.rawPath == dir.rawPath + "/" + name
    ensures IsHiddenFile(dir) ==> IsHiddenFile(child)
    ensures name[0] == '.' ==> IsHiddenFile(child)
  {
    HiddenDirectoryBelow(dir, child, name);
    DotNameHidden(dir, child, name);
  }

  /** A path keeps the stored path as its prefix. */
  lemma PathKeepsRaw(f: FileInfo)
    ensures |GetPath(f)| >= |f.rawPath| && GetPath(f)[..|f.rawPath|] == f.rawPath
  {
    if IsDirectory(f) && f.rawPath != "" {
    } else {
      assert GetPath(f) == f.rawPath;
    }
  }

  lemma HiddenDirectoryBelow(dir: FileInfo, child: FileInfo, name: string)
    requires dir.rawPath != "" && name != ""
    requires child.rawPath == dir.rawPath + "/" + name
    ensures IsHiddenFile(dir) ==> IsHiddenFile(child)
  {
    if IsHiddenFile(dir) {
      var d, c := GetPath(dir), GetPath(child);
      PathKeepsRaw(child);
      assert c[..|dir.rawPath|] == dir.rawPath;
      var i :| 0 <= i < |d| - 1 && d[i] == '/' && d[i + 1] == '.';
      assert i + 1 < |dir.rawPath|;
      assert c[i] == '/' && c[i + 1] == '.';
    }
  }

  lemma DotNameHidden(dir: FileInfo, child: FileInfo, name: string)
    requires dir.rawPath != "" && name != ""
    requires child.rawPath == dir.rawPath + "/" + name
    ensures name[0] == '.' ==> IsHiddenFile(child)
  {
    if name[0] == '.' {
      var c := GetPath(child);
      PathKeepsRaw(child);
      assert child.rawPath[|dir.rawPath|] == '/' && child.rawPath[|dir.rawPath| + 1] == '.';
      assert c[|dir.rawPath|] == '/' && c[|dir.rawPath| + 1] == '.';
    }
  }

  /** Some entry of the list has exactly this path. */
  predicate Listed(list: seq<FileInfo>, path: string)
  {
    exists j :: 0 <= j < |list| && GetPath(list[j]) == path
  }

  /** `isListContainsPath(list, path)`: a scan of the list for an entry whose path is exactly `path`. */
  method IsListContainsPath(list: seq<FileInfo>, path: string) returns (r: bool)
    ensures r <==> Listed(list, path)
  {
    for i := 0 to |list|
      invariant forall j :: 0 <= j < i ==> GetPath(list[j]) != path
    {
      if GetPath(list[i]) == path {
        return true;
      }
    }
    return false;
  }

  /** `isWhiteListed(list)`: the entry's own path or its parent is listed. */
  method IsWhiteListed(f: FileInfo, list: seq<FileInfo>) returns (r: bool)
    ensures r <==> Listed(list, GetPath(f)) || Listed(list, GetParent(f))
  {
    r := IsListContainsPath(list, GetPath(f));
    if !r {
      r := IsListContainsPath(list, GetParent(f));
    }
  }

  /** An entry directly inside a listed directory is white-listed. */
  lemma ChildOfListedIsWhiteListed(dir: FileInfo, child: FileInfo, list: seq<FileInfo>)
    requires IsDirectory(dir) && dir.rawPath != "" && Listed(list, GetPath(dir))
    requires exists name :: name != "" && '/' !in name && child.rawPath == dir.rawPath + "/" + name
    ensures Listed(list, GetParent(child))
  {
    ParentIsDirectoryPath(dir, child);
  }
}
