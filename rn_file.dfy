/**
 * The file entries exchanged with React Native (`db/data/File.kt`): a
 * database row turned into what the app shows, that entry as a bridge map,
 * and a status update read back from a bridge map.
 */
module RnFiles {
  import opened Wrappers
  import opened FileRecords

  /** `PartialFileRecord`: the columns of a row that the app reads. Dates are milliseconds. */
  datatype PartialFileRecord = PartialFileRecord(
    fileKey: string, path: string, parentDir: string, lastRNPath: string, name: string,
    createdDate: int, status: FileStatus, change: Change, size: int, mimeType: string)

  /** `File`: a file as the app sees it; `size` is the byte count the row holds. */
  datatype File = File(status: string, path: string, updatedPath: Option<string>, fileType: string, size: int)

  /** `FileStatusRecord(lastRNPath, status)`: a status update sent by the app for the path it knows. */
  datatype FileStatusRecord = FileStatusRecord(lastRNPath: string, status: FileStatus)

  /** A value in a React Native bridge map. */
  datatype MapValue = StrV(s: string) | NumV(n: int) | NullV

  /** A `ReadableMap`: keys that are absent are not in the map. */
  type ReadableMap = map<string, MapValue>

  /** Why reading a bridge map throws: `getString` on a value that is not a string. */
  datatype MapError = UnexpectedNativeType(key: string)

  const StatusKey := "status"
  const PathKey := "path"
  const UpdatedPathKey := "updatedPath"
  const TypeKey := "type"
  const SizeKey := "size"

  /**
   * `File.parse(fileRecord)`: a deleted file reports "deleted"; the path
   * the app knows (`lastRNPath`) is reported when there is one, and the
   * current path is then reported as the updated path if it differs.
   */
  function ParseRecord(rec: PartialFileRecord): (r: File)
    ensures rec.change == Change.Deleted ==> r.status == "deleted"
    ensures rec.change != Change.Deleted ==> r.status == RNFileStatusValue(rec.status)
    ensures r.path == if rec.lastRNPath == "" then rec.path else rec.lastRNPath
    ensures r.updatedPath.None? <==> rec.lastRNPath == "" || rec.lastRNPath == rec.path
    ensures r.updatedPath.Some? ==> r.updatedPath.value == rec.path && r.path != rec.path
    ensures r.fileType == rec.mimeType && r.size == rec.size
  {
    File(
      if rec.change == Change.Deleted then RNFileStatusValue(FileStatus.Deleted) else RNFileStatusValue(rec.status),
      if rec.lastRNPath == "" then rec.path else rec.lastRNPath,
      if rec.lastRNPath == "" || rec.lastRNPath == rec.path then None else Some(rec.path),
      rec.mimeType,
      rec.size)
  }

  /** `getMap()`: the entry as a bridge map, with `updatedPath` present as null when there is none. */
  function GetMap(f: File): (r: ReadableMap)
    ensures r.Keys == {StatusKey, PathKey, TypeKey, SizeKey, UpdatedPathKey}
    ensures r[StatusKey] == StrV(f.status) && r[PathKey] == StrV(f.path) && r[TypeKey] == StrV(f.fileType)
    ensures r[SizeKey] == NumV(f.size)
    ensures r[UpdatedPathKey] == if f.updatedPath.Some? then StrV(f.updatedPath.value) else NullV
  {
    map[StatusKey := StrV(f.status), PathKey := StrV(f.path), TypeKey := StrV(f.fileType), SizeKey := NumV(f.size),
        UpdatedPathKey := if f.updatedPath.Some? then StrV(f.updatedPath.value) else NullV]
  }

  /** `hasKey(key) && !isNull(key)` followed by `getString(key)`. */
  function ReadString(m: ReadableMap, key: string): (r: Result<Option<string>, MapError>)
    ensures r.Err? <==> key in m && m[key].NumV?
    ensures r == Ok(None) <==> key !in m || m[key].NullV?
    ensures r.Ok? && r.value.Some? <==> key in m && m[key].StrV?
    ensures r.Ok? && r.value.Some? ==> m[key] == StrV(r.value.value)
  {
    if key !in m then Ok(None)
    else match m[key]
      case NullV => Ok(None)
      case StrV(s) => Ok(Some(s))
      case NumV(_) => Err(UnexpectedNativeType(key))
  }

  /**
   * `File.parse(readableMap)`: a status update when both the path and the
   * status are present as strings and the status is a known one; none
   * otherwise.
   */
  function ParseStatusMap(m: ReadableMap): (r: Result<Option<FileStatusRecord>, MapError>)
    ensures r.Err? <==> (PathKey in m && m[PathKey].NumV?) || (StatusKey in m && m[StatusKey].NumV?)
    ensures r.Ok? && r.value.Some? <==>
              PathKey in m && m[PathKey].StrV? && StatusKey in m && m[StatusKey].StrV? &&
              ParseFileStatus(Some(m[StatusKey].s)).Some?
    ensures r.Ok? && r.value.Some? ==>
              r.value.value == FileStatusRecord(m[PathKey].s, ParseFileStatus(Some(m[StatusKey].s)).value)
  {
    var path := ReadString(m, PathKey);
    var status := ReadString(m, StatusKey);
    if path.Err? then Err(path.error)
    else if status.Err? then Err(status.error)
    else if path.value.Some? && status.value.Some? && ParseFileStatus(status.value).Some? then
      Ok(Some(FileStatusRecord(path.value.value, ParseFileStatus(status.value).value)))
    else Ok(None)
  }

  /**
   * Any row, shown to the app and sent back as a map, reads as a status
   * update for the path the app knows, with the status it was shown.
   */
  lemma ShownRecordReadsBack(rec: PartialFileRecord)
    ensures var f := ParseRecord(rec);
            ParseStatusMap(GetMap(f)) ==
              Ok(Some(FileStatusRecord(f.path, if rec.change == Change.Deleted then FileStatus.Deleted else rec.status)))
  {
    var f := ParseRecord(rec);
    FileStatusRoundTrip(if rec.change == Change.Deleted then FileStatus.Deleted else rec.status, f.status);
  }
}
