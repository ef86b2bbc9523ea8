/**
 * The string helpers of the app (`src/utils/string.ts`): file extensions,
 * truncation for display, and the joins and splits of '/'-separated paths.
 */
module StringUtils {
  import opened Wrappers
  import opened Text

  /** `getFileExtension(name)`: the text after the last '.', or the whole name when it has none. */
  function FileExtension(name: string): (r: string)
    ensures '.' !in r
    ensures |r| <= |name| && name[|name| - |r|..] == r
    ensures |r| == |name| || name[|name| - |r| - 1] == '.'
    ensures '.' !in name ==> r == name
  {
    SplitLast(name, '.');
    var parts := Split(name, '.');
    parts[|parts| - 1]
  }

  /** `getFileNameWithoutExtension(name)`: the text before the first '.'; no name gives none. */
  function FileNameWithoutExtension(name: Option<string>): (r: Option<string>)
    ensures r.None? <==> name.None?
    ensures r.Some? ==> '.' !in r.value && |r.value| <= |name.value| && name.value[..|r.value|] == r.value
    ensures r.Some? ==> |r.value| == |name.value| || name.value[|r.value|] == '.'
  {
    match name
    case None => None
    case Some(s) =>
      SplitFirst(s, '.');
      Some(Split(s, '.')[0])
  }

  /**
   * `truncateString(str, num)`: strings longer than `num + 3` keep
   * `str.slice(0, num)` and gain "..."; a negative `num` cuts that many
   * characters off the end.
   */
  function TruncateString(str: string, num: int): (r: string)
    ensures |str| <= num + 3 ==> r == str
    ensures |str| > num + 3 && num >= 0 ==> r == str[..num] + "..." && |r| == num + 3
    ensures num >= 0 ==> |r| <= |str|
    ensures |str| > num + 3 && num < 0 ==> r == str[..if |str| + num < 0 then 0 else |str| + num] + "..."
  {
    if |str| > num + 3 then Slice(str, 0, num) + "..." else str
  }

  /** `isEmpty(val)`: despite its name, true exactly when there is a value and it is not empty. */
  function IsEmpty(val: Option<string>): (r: bool)
    ensures r <==> val.Some? && |val.value| > 0
  {
    val.Some? && val.value != ""
  }

  /** `slash(path)`: the separator still needed after `path`; an empty path reads `undefined` and needs one. */
  function Slash(path: string): (r: string)
    ensures r == "" <==> |path| > 0 && path[|path| - 1] == '/'
    ensures r == "" || r == "/"
  {
    if |path| > 0 && path[|path| - 1] == '/' then "" else "/"
  }

  /** `getUri(path, name)`: `path` and `name` with exactly one '/' between them from `path`'s side. */
  function GetUri(path: string, name: string): (r: string)
    ensures |path| > 0 && path[|path| - 1] == '/' ==> r == path + name
    ensures !(|path| > 0 && path[|path| - 1] == '/') ==> r == path + "/" + name
    ensures r[..|path|] == path && r[|r| - |name|..] == name
  {
    path + Slash(path) + name
  }

  /** `getPrevPath(path)`: "/" stays; otherwise the last '/'-segment and the '/' before it are dropped. */
  function GetPrevPath(path: string): (r: string)
    ensures path == "/" ==> r == "/"
    ensures path != "/" ==> r == Join(Split(path, '/')[..|Split(path, '/')| - 1], '/')
    ensures path != "/" && '/' !in path ==> r == ""
  {
    if path == "/" then "/"
    else
      SplitCountsSep(path, '/');
      var parts := Split(path, '/');
      Join(parts[..|parts| - 1], '/')
  }

  /** `getDirNameFromPath(path)`: "" for the root; otherwise the last '/'-segment. */
  function GetDirNameFromPath(path: string): (r: string)
    ensures path == "/" ==> r == ""
    ensures '/' !in r
    ensures path != "/" ==> |r| <= |path| && path[|path| - |r|..] == r && (|r| == |path| || path[|path| - |r| - 1] == '/')
  {
    if path == "/" then ""
    else
      SplitLast(path, '/');
      var parts := Split(path, '/');
      parts[|parts| - 1]
  }

  /** "/a" goes up to "", and its name is "a". */
  lemma PrevPathOfTopLevel(name: string)
    requires '/' !in name && name != ""
    ensures GetPrevPath("/" + name) == ""
    ensures GetDirNameFromPath("/" + name) == name
  {
    assert "/" + name == "" + ['/'] + name;
    SplitPrefix("", name, '/');
    SplitNoSep(name, '/');
    assert Split("/" + name, '/') == ["", name];
    assert ["", name][..1] == [""];
  }

  /**
   * Going up one level and joining the name back gives the path again, for
   * any path with a '/' whose segments before the last are not empty
   * (a leading '/' is allowed).
   */
  lemma UriOfPrevPath(path: string)
    requires path != "/" && '/' in path
    requires forall i :: 1 <= i < |Split(path, '/')| - 1 ==> Split(path, '/')[i] != ""
    ensures GetUri(GetPrevPath(path), GetDirNameFromPath(path)) == path
  {
    var ps := Split(path, '/');
    var n := |ps|;
    SplitCountsSep(path, '/');
    var prev := Join(ps[..n - 1], '/');
    assert ps[..n - 1] + [ps[n - 1]] == ps;
    JoinSnoc(ps[..n - 1], ps[n - 1], '/');
    JoinSplit(path, '/');
    assert path == prev + "/" + ps[n - 1];
    PrevNotSlash(ps[..n - 1]);
  }

  /** Pieces of a split, joined, do not end in the separator unless the last piece is empty. */
  lemma PrevNotSlash(parts: seq<string>)
    requires |parts| >= 1
    requires forall i :: 0 <= i < |parts| ==> '/' !in parts[i]
    requires |parts| == 1 || parts[|parts| - 1] != ""
    ensures Slash(Join(parts, '/')) == "/"
  {
    var j := Join(parts, '/');
    var last := parts[|parts| - 1];
    JoinEnd(parts, '/');
    if |last| > 0 {
      assert j[|j| - 1] == last[|last| - 1];
    } else {
      assert j == parts[0];
    }
  }
}
