/**
 * The scanner's sync settings (`db/entity/SyncConfig.kt`): which camera
 * files to back up, from which date new photos count, and which folders
 * are watched.
 */
module SyncConfigs {
  import opened Wrappers
  import opened FileInfos

  datatype SyncRule =
    | BackupAllFiles
    | BackCameraAllVideosPhotos
    | BackCameraVideosOnly
    | BackCameraPhotosOnly
    | BackCameraNewPhotosOnly
    | BackCameraAllVideosAndOnlyNewPhotos

  /** The settings as they arrive from React Native (`db/data/Config.kt`); the date is in milliseconds. */
  datatype Config = Config(includeVideos: bool, includePhotos: bool, syncPhotosFromDate: Option<int>,
                           whitelistPaths: seq<string>, hasStorageAccess: bool)

  /** The stored settings; dates are milliseconds since the epoch, and a missing date is `None`. */
  datatype SyncConfig = SyncConfig(id: int, includeVideos: bool, includePhotos: bool,
                                   syncPhotosFromDate: Option<int>, whitelistPaths: seq<string>,
                                   hasStorageAccess: bool, lastUpdateDate: int)

  /** `isSyncOnlyNewPhotos()`: a start date is set and lies after the epoch. */
  function IsSyncOnlyNewPhotos(c: SyncConfig): (r: bool)
    ensures r <==> c.syncPhotosFromDate.Some? && c.syncPhotosFromDate.value > 0
  {
    match c.syncPhotosFromDate
    case None => false
    case Some(time) => time > 0
  }

  /** `getSyncRule()`: the first row of the decision table that applies. */
  function GetSyncRule(c: SyncConfig): (r: SyncRule)
    ensures !c.includeVideos && !c.includePhotos <==> r == BackupAllFiles
    ensures c.includeVideos && !c.includePhotos <==> r == BackCameraVideosOnly
    ensures c.includeVideos && c.includePhotos && IsSyncOnlyNewPhotos(c) <==> r == BackCameraAllVideosAndOnlyNewPhotos
    ensures c.includeVideos && c.includePhotos && !IsSyncOnlyNewPhotos(c) <==> r == BackCameraAllVideosPhotos
    ensures !c.includeVideos && c.includePhotos && IsSyncOnlyNewPhotos(c) <==> r == BackCameraNewPhotosOnly
    ensures !c.includeVideos && c.includePhotos && !IsSyncOnlyNewPhotos(c) <==> r == BackCameraPhotosOnly
  {
    if c.includeVideos && c.includePhotos && IsSyncOnlyNewPhotos(c) then BackCameraAllVideosAndOnlyNewPhotos
    else if c.includeVideos && c.includePhotos then BackCameraAllVideosPhotos
    else if c.includeVideos && !c.includePhotos then BackCameraVideosOnly
    else if !c.includeVideos && c.includePhotos && IsSyncOnlyNewPhotos(c) then BackCameraNewPhotosOnly
    else if !c.includeVideos && c.includePhotos then BackCameraPhotosOnly
    else BackupAllFiles
  }

  /** Whether a rule backs up videos, photos, and only the new photos. */
  predicate RuleTakesVideos(r: SyncRule)
  {
    r.BackCameraAllVideosPhotos? || r.BackCameraVideosOnly? || r.BackCameraAllVideosAndOnlyNewPhotos?
  }

  predicate RuleTakesPhotos(r: SyncRule)
  {
    r.BackCameraAllVideosPhotos? || r.BackCameraPhotosOnly? || r.BackCameraNewPhotosOnly? || r.BackCameraAllVideosAndOnlyNewPhotos?
  }

  predicate RuleNewPhotosOnly(r: SyncRule)
  {
    r.BackCameraNewPhotosOnly? || r.BackCameraAllVideosAndOnlyNewPhotos?
  }

  /**
   * The rule keeps every choice of the settings: when anything is chosen,
   * the videos, photos and new-photos flags read back from it.
   */
  lemma SyncRuleReadsBack(c: SyncConfig)
    ensures var r := GetSyncRule(c);
            (r == BackupAllFiles <==> !c.includeVideos && !c.includePhotos) &&
            (r != BackupAllFiles ==>
               RuleTakesVideos(r) == c.includeVideos &&
               RuleTakesPhotos(r) == c.includePhotos &&
               RuleNewPhotosOnly(r) == (c.includePhotos && IsSyncOnlyNewPhotos(c)))
  {
  }

  /** `SyncConfig.parse(config)`: a missing date becomes the epoch, the lists are copied, `now` is the clock. */
  function Parse(config: Config, now: int): (r: SyncConfig)
    ensures r.id == 0 && r.lastUpdateDate == now
    ensures r.includeVideos == config.includeVideos && r.includePhotos == config.includePhotos
    ensures r.hasStorageAccess == config.hasStorageAccess && r.whitelistPaths == config.whitelistPaths
    ensures r.syncPhotosFromDate == Some(if config.syncPhotosFromDate.Some? then config.syncPhotosFromDate.value else 0)
  {
    var date := if config.syncPhotosFromDate.Some? then config.syncPhotosFromDate.value else 0;
    SyncConfig(0, config.includeVideos, config.includePhotos, Some(date), config.whitelistPaths,
               config.hasStorageAccess, now)
  }

  /** Without a date in the settings, parsing turns "only new photos" off. */
  lemma ParseWithoutDate(config: Config, now: int)
    requires config.syncPhotosFromDate.None?
    ensures !IsSyncOnlyNewPhotos(Parse(config, now))
    ensures config.includePhotos && config.includeVideos ==> GetSyncRule(Parse(config, now)) == BackCameraAllVideosPhotos
  {
  }

  /** `getWhiteListPaths()`: one entry per stored path, in order; `stat` stands for what the file system reports. */
  function GetWhiteListPaths(c: SyncConfig, stat: string -> DiskFacts): (r: seq<FileInfo>)
    ensures |r| == |c.whitelistPaths|
    ensures forall i :: 0 <= i < |r| ==> r[i].rawPath == c.whitelistPaths[i] && r[i].sha256Hash == ""
  {
    seq(|c.whitelistPaths|, i requires 0 <= i < |c.whitelistPaths| => FileInfo(c.whitelistPaths[i], "", stat(c.whitelistPaths[i])))
  }

  /** A path is white-listed by the settings exactly when it is one of the stored paths' `getPath()`. */
  lemma WhiteListedByConfig(c: SyncConfig, stat: string -> DiskFacts, path: string)
    ensures Listed(GetWhiteListPaths(c, stat), path) <==>
            exists i :: 0 <= i < |c.whitelistPaths| && GetPath(FileInfo(c.whitelistPaths[i], "", stat(c.whitelistPaths[i]))) == path
  {
    var r := GetWhiteListPaths(c, stat);
    if Listed(r, path) {
      var j :| 0 <= j < |r| && GetPath(r[j]) == path;
      assert r[j] == FileInfo(c.whitelistPaths[j], "", stat(c.whitelistPaths[j]));
    }
    if exists i :: 0 <= i < |c.whitelistPaths| && GetPath(FileInfo(c.whitelistPaths[i], "", stat(c.whitelistPaths[i]))) == path {
      var i :| 0 <= i < |c.whitelistPaths| && GetPath(FileInfo(c.whitelistPaths[i], "", stat(c.whitelistPaths[i]))) == path;
      assert r[i] == FileInfo(c.whitelistPaths[i], "", stat(c.whitelistPaths[i]));
    }
  }

  /** Java's `int` arithmetic: the value reduced to 32-bit two's complement. */
  function Int32(x: int): (r: int)
    ensures -0x8000_0000 <= r < 0x8000_0000
    ensures (r - x) % 0x1_0000_0000 == 0
  {
    (x + 0x8000_0000) % 0x1_0000_0000 - 0x8000_0000
  }

  /** `String.hashCode()`: `31 * h + c` over the characters, in `int` arithmetic. */
  function StringHash(s: string): (r: int)
    ensures -0x8000_0000 <= r < 0x8000_0000
  {
    if s == [] then 0 else Int32(31 * StringHash(s[..|s| - 1]) + s[|s| - 1] as int)
  }

  /** `List.hashCode()`: `31 * h + e.hashCode()` from 1, in `int` arithmetic. */
  function ListHash(l: seq<string>): (r: int)
    ensures -0x8000_0000 <= r < 0x8000_0000
  {
    if l == [] then 1 else Int32(31 * ListHash(l[..|l| - 1]) + StringHash(l[|l| - 1]))
  }

  /** `isWhiteListPathsChanged(other)` as written: the two lists' hash codes differ. */
  function IsWhiteListPathsChangedAsWritten(c: SyncConfig, other: SyncConfig): (r: bool)
    ensures c.whitelistPaths == other.whitelistPaths ==> !r
  {
    ListHash(c.whitelistPaths) != ListHash(other.whitelistPaths)
  }

  /** `isWhiteListPathsChanged(other)` as intended: the lists differ. */
  function IsWhiteListPathsChanged(c: SyncConfig, other: SyncConfig): (r: bool)
    ensures r <==> c.whitelistPaths != other.whitelistPaths
  {
    c.whitelistPaths != other.whitelistPaths
  }

  /** Every change the hash comparison reports is a real change. */
  lemma AsWrittenReportsOnlyChanges(c: SyncConfig, other: SyncConfig)
    ensures IsWhiteListPathsChangedAsWritten(c, other) ==> IsWhiteListPathsChanged(c, other)
  {
  }

  lemma Int32InRange(x: int)
    requires -0x8000_0000 <= x < 0x8000_0000
    ensures Int32(x) == x
  {
  }

  /** "/Aa" and "/BB" have the same `String.hashCode()`. */
  lemma StringHashCollision()
    ensures StringHash("/Aa") == StringHash("/BB") == 47279
  {
    assert "/"[..0] == "";
    Int32InRange(47);
    assert StringHash("/") == 47;
    assert "/A"[..1] == "/" && "/B"[..1] == "/";
    Int32InRange(47 * 31 + 65);
    Int32InRange(47 * 31 + 66);
    assert StringHash("/A") == 1522;
    assert StringHash("/B") == 1523;
    assert "/Aa"[..2] == "/A" && "/BB"[..2] == "/B";
    Int32InRange(1522 * 31 + 97);
    Int32InRange(1523 * 31 + 66);
  }

  /** Watching "/Aa" instead of "/BB" goes unnoticed: both lists hash to the same code. */
  lemma WhiteListHashCollision(c: SyncConfig, other: SyncConfig)
    requires c.whitelistPaths == ["/Aa"] && other.whitelistPaths == ["/BB"]
    ensures IsWhiteListPathsChanged(c, other)
    ensures !IsWhiteListPathsChangedAsWritten(c, other)
  {
    StringHashCollision();
    assert ["/Aa"][..0] == [] && ["/BB"][..0] == [];
    assert "/Aa"[1] != "/BB"[1];
  }
}
