/**
 * The name checks and path builders of `AccountSystem`: which file and
 * directory names are accepted, the metadata paths files and folders are
 * stored under, and the byte handles of shares and uploaded files.
 */
module AccountPaths {
  import opened Wrappers
  import opened Bytes
  import opened Text

  const MAX_NAME_LENGTH: nat := 255
  /** `posix.sep`. */
  const SEP: char := '/'
  const NUL: char := '\0'

  /**
   * What the complaint names: a file name, a directory name alone (the
   * sanitization error re-thrown for a directory), or a directory together
   * with the path it belongs to (the length error re-thrown for a directory).
   */
  datatype Subject = File | Directory | DirectoryOf(path: string)

  /** `AccountSystemLengthError` and `AccountSystemSanitizationError`, with what they report. */
  datatype NameFault =
    | LengthError(subject: Subject, name: string, length: nat)
    | SanitizationError(subject: Subject, name: string)

  /**
   * `validateFilename`: `None` when the name is accepted, else the error it
   * throws.  The length check comes first.
   */
  function ValidateFilename(name: string): (r: Option<NameFault>)
    ensures r.None? <==> 1 <= |name| <= MAX_NAME_LENGTH && SEP !in name && NUL !in name
    ensures r == Some(LengthError(File, name, |name|)) <==> !(1 <= |name| <= MAX_NAME_LENGTH)
    ensures r == Some(SanitizationError(File, name)) <==>
              1 <= |name| <= MAX_NAME_LENGTH && (SEP in name || NUL in name)
  {
    if |name| < 1 || |name| > MAX_NAME_LENGTH then Some(LengthError(File, name, |name|))
    else if SEP in name || NUL in name then Some(SanitizationError(File, name))
    else None
  }

  /** A file-name error re-thrown for directory `dir` of `path`: only the length error names the path. */
  function AsDirectoryFault(f: NameFault, dir: string, path: string): NameFault
  {
    match f
    case LengthError(_, _, _) => LengthError(DirectoryOf(path), dir, |dir|)
    case SanitizationError(_, _) => SanitizationError(Directory, dir)
  }

  /** The loop of `validateDirectoryPath`: the first segment that fails, as a directory error. */
  function FirstBadDirectory(dirs: seq<string>, path: string): (r: Option<NameFault>)
    ensures r.None? <==> forall k :: 0 <= k < |dirs| ==> ValidateFilename(dirs[k]).None?
    ensures r.Some? ==> exists k :: 0 <= k < |dirs| && ValidateFilename(dirs[k]).Some? &&
                          (forall m :: 0 <= m < k ==> ValidateFilename(dirs[m]).None?) &&
                          r.value == AsDirectoryFault(ValidateFilename(dirs[k]).value, dirs[k], path)
  {
    if dirs == [] then None
    else
      match ValidateFilename(dirs[0])
      case Some(f) => Some(AsDirectoryFault(f, dirs[0], path))
      case None =>
        var r := FirstBadDirectory(dirs[1..], path);
        assert forall k :: 0 <= k < |dirs[1..]| ==> dirs[1..][k] == dirs[k + 1];
        r
  }

  /**
   * `validateDirectoryPath`: "/" is accepted outright; otherwise every
   * segment after the first piece of `path.split("/")` must be a valid name.
   */
  function ValidateDirectoryPath(path: string): (r: Option<NameFault>)
    ensures path == "/" ==> r.None?
    ensures r.Some? && r.value.LengthError? ==> r.value.subject == DirectoryOf(path)
    ensures r.Some? && r.value.SanitizationError? ==> r.value.subject == Directory
  {
    if path == "/" then None else FirstBadDirectory(Split(path, SEP)[1..], path)
  }

  /** A path is accepted iff it is "/" or every segment after the leading one is a valid file name. */
  lemma DirectoryPathAccepted(path: string)
    ensures ValidateDirectoryPath(path).None? <==>
              path == "/" ||
              forall k :: 1 <= k < |Split(path, SEP)| ==> ValidateFilename(Split(path, SEP)[k]).None?
  {
    var dirs := Split(path, SEP)[1..];
    assert forall k :: 0 <= k < |dirs| ==> dirs[k] == Split(path, SEP)[k + 1];
    if path != "/" && ValidateDirectoryPath(path).None? {
      forall k | 1 <= k < |Split(path, SEP)|
        ensures ValidateFilename(Split(path, SEP)[k]).None?
      {
        assert dirs[k - 1] == Split(path, SEP)[k];
      }
    }
  }

  /** The edge cases of the split: the empty path passes, a trailing slash fails on the empty last segment. */
  lemma DirectoryPathEdges()
    ensures ValidateDirectoryPath("").None?
    ensures ValidateDirectoryPath("/a/") == Some(LengthError(DirectoryOf("/a/"), "", 0))
    ensures ValidateDirectoryPath("/a/b").None?
  {
    EmptyDirectoryPath();
    TrailingSlashDirectoryPath();
    NestedDirectoryPath();
  }

  lemma EmptyDirectoryPath()
    ensures ValidateDirectoryPath("").None?
  {
    assert Split("", SEP) == [""];
  }

  lemma TrailingSlashDirectoryPath()
    ensures ValidateDirectoryPath("/a/") == Some(LengthError(DirectoryOf("/a/"), "", 0))
  {
    assert Split("/", SEP) == ["", ""] by {
      assert "/"[1..] == "";
    }
    assert Split("a/", SEP) == ["a", ""] by {
      assert "a/"[1..] == "/";
      assert ['a'] + "" == "a";
      assert ["", ""][1..] == [""];
    }
    assert Split("/a/", SEP) == ["", "a", ""] by {
      assert "/a/"[1..] == "a/";
    }
  }

  lemma NestedDirectoryPath()
    ensures ValidateDirectoryPath("/a/b").None?
  {
    assert Split("b", SEP) == ["b"] by {
      assert "b"[1..] == "";
      assert ['b'] + "" == "b";
      assert [""][1..] == [];
    }
    assert Split("/b", SEP) == ["", "b"] by {
      assert "/b"[1..] == "b";
    }
    assert Split("a/b", SEP) == ["a", "b"] by {
      assert "a/b"[1..] == "/b";
      assert ['a'] + "" == "a";
      assert ["", "b"][1..] == ["b"];
    }
    assert Split("/a/b", SEP) == ["", "a", "b"] by {
      assert "/a/b"[1..] == "a/b";
    }
  }

  // ---------------------------------------------------------------- metadata paths

  const GUID: string := "5b7c0640-bc3a-4fa8-b588-ca6a922c1475"
  /** `prefix`: "/" + guid + "/v" + version, with version 2. */
  const PREFIX: string := "/" + GUID + "/v" + "2"
  const FILES_INDEX: string := PREFIX + "/files"
  const FOLDERS_INDEX: string := PREFIX + "/folders"
  const SHARE_INDEX: string := PREFIX + "/share"

  /** `getFileDerivePath`, given the base64url text of the location. */
  function FileDerivePath(location: string): (r: string)
    ensures |r| == |PREFIX| + 6 + |location|
    ensures r[..|PREFIX|] == PREFIX && r[|PREFIX|..|PREFIX| + 6] == "/file/"
    ensures r[|PREFIX| + 6..] == location
  {
    PREFIX + "/file/" + location
  }

  /** `getFolderDerivePath`, given the base64url text of the location. */
  function FolderDerivePath(location: string): (r: string)
    ensures |r| == |PREFIX| + 8 + |location|
    ensures r[..|PREFIX|] == PREFIX && r[|PREFIX|..|PREFIX| + 8] == "/folder/"
    ensures r[|PREFIX| + 8..] == location
  {
    PREFIX + "/folder/" + location
  }

  /**
   * Derive paths name one metadata document each: different locations
   * get different paths, and no file path is a folder path or an index.
   */
  lemma DerivePathsDistinct(a: string, b: string)
    ensures FileDerivePath(a) == FileDerivePath(b) <==> a == b
    ensures FolderDerivePath(a) == FolderDerivePath(b) <==> a == b
    ensures FileDerivePath(a) != FolderDerivePath(b)
    ensures FileDerivePath(a) != FILES_INDEX && FileDerivePath(a) != FOLDERS_INDEX && FileDerivePath(a) != SHARE_INDEX
    ensures FolderDerivePath(a) != FILES_INDEX && FolderDerivePath(a) != FOLDERS_INDEX && FolderDerivePath(a) != SHARE_INDEX
  {
    var n := |PREFIX|;
    if FileDerivePath(a) == FileDerivePath(b) {
      assert a == FileDerivePath(a)[n + 6..];
    }
    if FolderDerivePath(a) == FolderDerivePath(b) {
      assert a == FolderDerivePath(a)[n + 8..];
    }
    assert FileDerivePath(a)[n + 5] == '/' && FolderDerivePath(b)[n + 5] == 'e';
    assert FileDerivePath(a)[n + 5] == '/' && FILES_INDEX[n + 5] == 's';
    assert FileDerivePath(a)[n + 2] == 'i' && FOLDERS_INDEX[n + 2] == 'o' && SHARE_INDEX[n + 2] == 'h';
    assert FolderDerivePath(a)[n + 7] == '/' && FOLDERS_INDEX[n + 7] == 's';
    assert FolderDerivePath(a)[n + 1] == 'f' && FILES_INDEX[n + 2] == 'i' && FolderDerivePath(a)[n + 2] == 'o';
    assert SHARE_INDEX[n + 1] == 's';
  }

  // ---------------------------------------------------------------- handles

  /** `getShareHandle`: the location key followed by the encryption key. */
  function ShareHandle(locationKey: seq<byte>, encryptionKey: seq<byte>): (r: seq<byte>)
    ensures |r| == |locationKey| + |encryptionKey|
    ensures r[..|locationKey|] == locationKey && r[|locationKey|..] == encryptionKey
  {
    locationKey + encryptionKey
  }

  /** The upload's file handle: the location followed by the key when a key is given, else the location alone. */
  function FileHandle(location: seq<byte>, key: Option<seq<byte>>): (r: seq<byte>)
    ensures |location| <= |r| && r[..|location|] == location
    ensures key.Some? ==> r == ShareHandle(location, key.value)
    ensures key.None? ==> r == location
  {
    if key.Some? then location + key.value else location
  }

  /** A handle splits back, at the location's length, into the two keys it was made of. */
  lemma HandlesSplit(location: seq<byte>, key: seq<byte>)
    ensures ShareHandle(location, key)[..|location|] == location
    ensures ShareHandle(location, key)[|location|..] == key
    ensures FileHandle(location, Some(key)) == ShareHandle(location, key)
    ensures FileHandle(location, None) == location
  {
  }
}
