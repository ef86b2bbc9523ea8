/**
 * The scanner's record of a file (`db/entity/FileRecord.kt`): the status
 * and change enums with their React Native names, the sort keys, and the
 * rule that decides from the sync settings and the MIME type whether a
 * file needs syncing.
 */
module FileRecords {
  import opened Wrappers
  import opened FileInfos
  import opened SyncConfigs

  datatype FileStatus = NoSync | NeedsSync | Synced | UploadInProgress | UploadFailed | Deleted

  datatype Change = NoChange | Created | Modified | Deleted | Moved | Renamed

  datatype SortBy = ByName | ByType | BySize | ByDateCreated

  /** `FileStatus.getRNFileStatusValue(status)`. */
  function RNFileStatusValue(s: FileStatus): string
  {
    match s
    case NoSync => "no-sync"
    case NeedsSync => "needs-sync"
    case Synced => "synced"
    case UploadInProgress => "upload-in-progress"
    case UploadFailed => "upload-failed"
    case Deleted => "deleted"
  }

  /** `FileStatus.parse(text)`: the status with that React Native name; none for any other text. */
  function ParseFileStatus(text: Option<string>): (r: Option<FileStatus>)
    ensures r.Some? ==> text.Some? && RNFileStatusValue(r.value) == text.value
  {
    if text.None? then None
    else match text.value
      case "no-sync" => Some(NoSync)
      case "needs-sync" => Some(NeedsSync)
      case "synced" => Some(Synced)
      case "upload-in-progress" => Some(UploadInProgress)
      case "upload-failed" => Some(UploadFailed)
      case "deleted" => Some(FileStatus.Deleted)
      case _ => None
  }

  /** The names round-trip: every status parses back from its name, and only names parse. */
  lemma FileStatusRoundTrip(s: FileStatus, text: string)
    ensures ParseFileStatus(Some(RNFileStatusValue(s))) == Some(s)
    ensures ParseFileStatus(Some(text)).Some? <==> exists t :: RNFileStatusValue(t) == text
  {
    if exists t :: RNFileStatusValue(t) == text {
      var t :| RNFileStatusValue(t) == text;
      assert ParseFileStatus(Some(RNFileStatusValue(t))) == Some(t);
    }
  }

  /** `SortBy.parse(text)`. */
  function ParseSortBy(text: Option<string>): (r: Option<SortBy>)
    ensures r == Some(ByName) <==> text == Some("name")
    ensures r == Some(ByType) <==> text == Some("type")
    ensures r == Some(BySize) <==> text == Some("size")
    ensures r == Some(ByDateCreated) <==> text == Some("date-created")
  {
    if text.None? then None
    else match text.value
      case "name" => Some(ByName)
      case "type" => Some(ByType)
      case "size" => Some(BySize)
      case "date-created" => Some(ByDateCreated)
      case _ => None
  }

  /** `MimeTypes.isVideo`. */
  predicate IsVideo(mimeType: string)
  {
    mimeType in {"video/x-msvideo", "video/mp4", "video/mpeg", "video/ogg", "video/mp2t", "video/webm", "video/3gpp", "video/3gpp2"}
  }

  /** `MimeTypes.isImage`. */
  predicate IsImage(mimeType: string)
  {
    mimeType in {"image/bmp", "image/gif", "image/vnd.microsoft.icon", "image/jpeg", "image/png", "image/svg+xml", "image/tiff", "image/webp"}
  }

  /** `isFileDateExceedStartDate(fileInfo)`: created on or after the start date; true when there is none. */
  function IsFileDateExceedStartDate(config: SyncConfig, f: FileInfo): (r: bool)
    ensures config.syncPhotosFromDate.None? ==> r
    ensures config.syncPhotosFromDate.Some? ==> (r <==> f.disk.creationDate >= config.syncPhotosFromDate.value)
  {
    match config.syncPhotosFromDate
    case None => true
    case Some(start) => f.disk.creationDate >= start
  }

  /** `getFileStatus(fileInfo)`; `config` is the observer's current `syncConfig`. */
  function GetFileStatus(config: SyncConfig, f: FileInfo): (r: FileStatus)
    ensures r == NeedsSync || r == NoSync
  {
    var mime := GetMimeType(f);
    var wanted :=
      match GetSyncRule(config)
      case BackupAllFiles => true
      case BackCameraAllVideosPhotos => IsVideo(mime) || IsImage(mime)
      case BackCameraVideosOnly => IsVideo(mime)
      case BackCameraPhotosOnly => IsImage(mime)
      case BackCameraNewPhotosOnly => IsImage(mime) && IsFileDateExceedStartDate(config, f)
      case BackCameraAllVideosAndOnlyNewPhotos => IsVideo(mime) || (IsImage(mime) && IsFileDateExceedStartDate(config, f));
    if wanted then NeedsSync else NoSync
  }

  /**
   * The file is wanted by the settings: everything when neither videos nor
   * photos are chosen, else a chosen video, or a chosen photo that is not
   * older than the start date when only new photos count.
   */
  predicate Wanted(config: SyncConfig, f: FileInfo)
  {
    var mime := GetMimeType(f);
    (!config.includeVideos && !config.includePhotos) ||
    (config.includeVideos && IsVideo(mime)) ||
    (config.includePhotos && IsImage(mime) && (IsSyncOnlyNewPhotos(config) ==> f.disk.creationDate >= config.syncPhotosFromDate.value))
  }

  /** A file needs syncing exactly when the settings want it. */
  lemma GetFileStatusWanted(config: SyncConfig, f: FileInfo)
    ensures GetFileStatus(config, f) == NeedsSync <==> Wanted(config, f)
  {
    var r := GetSyncRule(config);
    assert r == BackupAllFiles <==> !config.includeVideos && !config.includePhotos;
  }

  /** A row of the files table. Dates are milliseconds since the epoch. */
  datatype FileRecord = FileRecord(
    fileKey: string, path: string, createdDate: int, parentDir: string, isDir: bool, name: string,
    mimeType: string, sha256Checksum: string, status: FileStatus, size: int, change: Change,
    lastRNPath: string, recordCreateDate: int, recordLastUpdateDate: int, recordLastUpdateDateAsStr: string)

  /** `FileRecord.build(fileInfo)`; `now` is the clock reading for the record dates. */
  function Build(config: SyncConfig, f: FileInfo, now: int): (r: FileRecord)
    ensures r.fileKey == f.disk.fileKey && r.path == GetPath(f) && r.parentDir == GetParent(f)
    ensures r.isDir == IsDirectory(f) && r.name == Name(f.rawPath) && r.mimeType == GetMimeType(f)
    ensures r.isDir ==> r.size == 0 && r.status == NeedsSync && r.mimeType == ""
    ensures !r.isDir ==> r.size == f.disk.length && (r.status == NeedsSync <==> Wanted(config, f))
    ensures r.change == Created && r.lastRNPath == ""
  {
    GetFileStatusWanted(config, f);
    var isDir := IsDirectory(f);
    FileRecord(f.disk.fileKey, GetPath(f), f.disk.creationDate, GetParent(f), isDir, Name(f.rawPath),
               GetMimeType(f), f.sha256Hash, if isDir then NeedsSync else GetFileStatus(config, f),
               if isDir then 0 else f.disk.length, Created, "", now, now, "")
  }
}
