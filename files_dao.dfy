/**
 * The files table and its data-access object (`db/dao/FilesDao.kt`): the
 * table is a map from file key to row, and each write the scanner makes is
 * a method of `FilesDao` proved against a function on the table.
 */
module FilesDaos {
  import opened Wrappers
  import opened Text
  import opened FileInfos
  import opened SyncConfigs
  import opened FileRecords
  import opened RnFiles
  import opened EventsManagers

  /** The `files_list` table, keyed by `fileKey`. */
  type Table = map<string, FileRecord>

  /** Every row is stored under its own key. */
  predicate Keyed(t: Table)
  {
    forall k :: k in t ==> t[k].fileKey == k
  }

  /** `getFileByKey(key)`: the row, if any. */
  function Lookup(t: Table, key: string): Option<FileRecord>
  {
    if key in t then Some(t[key]) else None
  }

  // ---------------------------------------------------------------------------
  // addFileOrUpdateIFExists
  // ---------------------------------------------------------------------------

  /** What the DAO reads of a `FileInfo`: its key, path, parent, name, kind, MIME type, length and sync status. */
  datatype Observed = Observed(fileKey: string, path: string, parent: string, name: string, isDir: bool,
                               mimeType: string, length: int, status: FileStatus)

  /** The fields of `f` as `addFileOrUpdateIFExists` reads them; a directory's status is always "needs sync". */
  function Observe(config: SyncConfig, f: FileInfo): Observed
  {
    Observed(f.disk.fileKey, GetPath(f), GetParent(f), Name(f.rawPath), IsDirectory(f), GetMimeType(f), f.disk.length,
             if IsDirectory(f) then NeedsSync else GetFileStatus(config, f))
  }

  /**
   * What changed since the row was written, most important first: the size
   * of a file, then the name, then the path or the parent directory.
   */
  function ChangeOf(row: FileRecord, o: Observed): Change
  {
    if !o.isDir && row.size != o.length then Modified
    else if row.name != o.name then Renamed
    else if row.path != o.path || row.parentDir != o.parent then Moved
    else NoChange
  }

  /** `updateFileByKey`: the row takes the file's current path, parent, name, MIME type, size and status. */
  function UpdateFileByKey(row: FileRecord, o: Observed, change: Change, now: int): FileRecord
  {
    row.(path := o.path, parentDir := o.parent, name := o.name, mimeType := o.mimeType, size := o.length,
         status := o.status, change := change, recordLastUpdateDate := now)
  }

  /** `updateFileChangeStatus`: the row takes a new change. */
  function UpdateFileChangeStatus(row: FileRecord, change: Change, now: int): FileRecord
  {
    row.(change := change, recordLastUpdateDate := now)
  }

  /** The row after a scan found the file `o` under the row's key. */
  function Refreshed(row: FileRecord, o: Observed, now: int): FileRecord
  {
    var change := ChangeOf(row, o);
    if change != NoChange then UpdateFileByKey(row, o, change, now)
    else if row.change == Change.Deleted then UpdateFileChangeStatus(row, Created, now)
    else row
  }

  /** The table after a scan found `f`. */
  function Scanned(config: SyncConfig, t: Table, f: FileInfo, now: int): (r: Table)
    ensures r.Keys == t.Keys + {f.disk.fileKey}
  {
    var key := f.disk.fileKey;
    if key in t then t[key := Refreshed(t[key], Observe(config, f), now)] else t[key := Build(config, f, now)]
  }

  /** What the scan of one file tells the app. */
  datatype Notice = NoNotice | NewFile | FileChanged(path: string, size: int)

  /** The path reported to the app: the one it knows, or the current one if it knows none. */
  function ReportedPath(row: FileRecord, o: Observed): string
  {
    if row.lastRNPath == "" then o.path else row.lastRNPath
  }

  /** A new file is announced; a file whose size changed, or that came back after being deleted, is reported changed. */
  function NoticeOf(row: Option<FileRecord>, o: Observed): Notice
  {
    match row
    case None => NewFile
    case Some(r) =>
      var change := ChangeOf(r, o);
      if change == Modified || (change == NoChange && r.change == Change.Deleted) then FileChanged(ReportedPath(r, o), o.length)
      else NoNotice
  }

  /** The events manager's state after it is asked to send `n`. */
  function Announce(last: Option<RNEvent>, sent: seq<Intent>, n: Notice, hasContext: bool): (r: (Option<RNEvent>, seq<Intent>))
    ensures n.NoNotice? ==> r == (last, sent)
    ensures |sent| <= |r.1| <= |sent| + 1 && r.1[..|sent|] == sent
  {
    match n
    case NoNotice => (last, sent)
    case NewFile =>
      if Delivered(last, ScanStatusNewFile, hasContext) then (Some(ScanStatusNewFile), sent + [BuildIntent(ScanStatusNewFile)])
      else (last, sent)
    case FileChanged(path, size) =>
      if Delivered(last, FileChange, hasContext) then (Some(FileChange), sent + [FileChangeIntent(path, size)])
      else (last, sent)
  }

  /** The table and the events manager after scanning each of `files` in turn. */
  function ScanAll(config: SyncConfig, t: Table, last: Option<RNEvent>, sent: seq<Intent>, files: seq<FileInfo>,
                   now: int, hasContext: bool): (r: (Table, Option<RNEvent>, seq<Intent>))
    ensures |sent| <= |r.2| <= |sent| + |files| && r.2[..|sent|] == sent
    decreases |files|
  {
    if files == [] then (t, last, sent)
    else
      var init := files[..|files| - 1];
      var (t', last', sent') := ScanAll(config, t, last, sent, init, now, hasContext);
      var f := files[|files| - 1];
      var (last'', sent'') := Announce(last', sent', NoticeOf(Lookup(t', f.disk.fileKey), Observe(config, f)), hasContext);
      assert sent''[..|sent|] == sent'[..|sent|];
      (Scanned(config, t', f, now), last'', sent'')
  }

  /** Scanning one more file: the scan of the first `i` files, then the `i`-th one. */
  lemma ScanAllStep(config: SyncConfig, t: Table, last: Option<RNEvent>, sent: seq<Intent>, files: seq<FileInfo>, i: nat,
                    now: int, hasContext: bool)
    requires i < |files|
    ensures var p := ScanAll(config, t, last, sent, files[..i], now, hasContext);
            var a := Announce(p.1, p.2, NoticeOf(Lookup(p.0, files[i].disk.fileKey), Observe(config, files[i])), hasContext);
            ScanAll(config, t, last, sent, files[..i + 1], now, hasContext) == (Scanned(config, p.0, files[i], now), a.0, a.1)
  {
    assert files[..i + 1][..i] == files[..i];
  }

  /** The file keys of `files`. */
  function KeysOf(files: seq<FileInfo>): set<string>
  {
    set i | 0 <= i < |files| :: files[i].disk.fileKey
  }

  /** The keys of some files are the keys of all but the last, plus the last one's. */
  lemma KeysSnoc(files: seq<FileInfo>)
    requires files != []
    ensures KeysOf(files) == KeysOf(files[..|files| - 1]) + {files[|files| - 1].disk.fileKey}
  {
    var init := files[..|files| - 1];
    forall key ensures key in KeysOf(files) <==> key in KeysOf(init) || key == files[|files| - 1].disk.fileKey {
      if key in KeysOf(files) {
        var i :| 0 <= i < |files| && files[i].disk.fileKey == key;
        if i < |init| {
          assert init[i] == files[i];
        }
      }
      if key in KeysOf(init) {
        var i :| 0 <= i < |init| && init[i].disk.fileKey == key;
        assert files[i] == init[i];
      }
    }
  }

  /** Scanning the last of `files` adds its key to the keys of the others. */
  lemma ScannedKeysStep(config: SyncConfig, prev: Table, base: set<string>, files: seq<FileInfo>, now: int)
    requires files != [] && prev.Keys == base + KeysOf(files[..|files| - 1])
    ensures Scanned(config, prev, files[|files| - 1], now).Keys == base + KeysOf(files)
  {
    KeysSnoc(files);
  }

  /** A scan leaves a row for every file it saw and drops none. */
  lemma {:induction false} ScanAllKeys(config: SyncConfig, t: Table, last: Option<RNEvent>, sent: seq<Intent>,
                                       files: seq<FileInfo>, now: int, hasContext: bool)
    ensures ScanAll(config, t, last, sent, files, now, hasContext).0.Keys == t.Keys + KeysOf(files)
  {
    if files != [] {
      var n := |files| - 1;
      ScanAllKeys(config, t, last, sent, files[..n], now, hasContext);
      ScanAllStep(config, t, last, sent, files, n, now, hasContext);
      ScannedKeysStep(config, ScanAll(config, t, last, sent, files[..n], now, hasContext).0, t.Keys, files, now);
      assert files[..n + 1] == files;
    }
  }

  /**
   * A row is left alone exactly when it agrees with the row a first scan
   * of `f` would build on path, parent directory, name and, for a file, size;
   * a file is "modified" exactly when its size differs.
   */
  lemma NoChangeIffAsBuilt(config: SyncConfig, row: FileRecord, f: FileInfo, now: int)
    ensures var b := Build(config, f, now);
            ChangeOf(row, Observe(config, f)) == NoChange <==>
              row.path == b.path && row.parentDir == b.parentDir && row.name == b.name &&
              (b.isDir || row.size == b.size)
    ensures ChangeOf(row, Observe(config, f)) == Modified <==> !IsDirectory(f) && row.size != f.disk.length
  {
  }

  /** Refreshing a row with the file it was refreshed from finds nothing to change. */
  lemma RefreshedIsCurrent(row: FileRecord, o: Observed, now: int)
    ensures var r := Refreshed(row, o, now);
            ChangeOf(r, o) == NoChange && r.change != Change.Deleted
  {
  }

  /** A freshly built row has nothing to change against the file it was built from. */
  lemma BuiltIsCurrent(config: SyncConfig, f: FileInfo, now: int)
    ensures var b := Build(config, f, now);
            ChangeOf(b, Observe(config, f)) == NoChange && b.change != Change.Deleted
  {
  }

  /**
   * Scanning the same file twice in a row is the same as scanning it once,
   * and the second scan tells the app nothing.
   */
  lemma RescanIsQuiet(config: SyncConfig, t: Table, f: FileInfo, now: int, later: int)
    ensures var t' := Scanned(config, t, f, now);
            Scanned(config, t', f, later) == t' && NoticeOf(Lookup(t', f.disk.fileKey), Observe(config, f)) == NoNotice
  {
    var key, o := f.disk.fileKey, Observe(config, f);
    var t' := Scanned(config, t, f, now);
    if key in t {
      RefreshedIsCurrent(t[key], o, now);
    } else {
      BuiltIsCurrent(config, f, now);
    }
    assert t'[key := t'[key]] == t';
  }

  /** The app is told of a new file exactly when the key was not in the table. */
  lemma NewFileIffAbsent(t: Table, o: Observed)
    ensures NoticeOf(Lookup(t, o.fileKey), o) == NewFile <==> o.fileKey !in t
  {
  }

  // ---------------------------------------------------------------------------
  // updateDirNameAndItsSubFiles / updateDirPathAndItsSubFiles
  // ---------------------------------------------------------------------------

  /** An entry whose parent directory lies in or below the directory `dirPath`. */
  predicate IsUnder(dirPath: string, parentDir: string)
  {
    IsPrefix(dirPath, parentDir)
  }

  /** A path with the leading directory `from` replaced by `to`; other paths as they are. */
  function MovedPath(p: string, from: string, to: string): string
  {
    if IsPrefix(from, p) then to + p[|from|..] else p
  }

  /** The row of an entry whose directory moved from `from` to `to`. */
  function MoveRow(row: FileRecord, from: string, to: string, now: int): FileRecord
  {
    row.(path := MovedPath(row.path, from, to), parentDir := MovedPath(row.parentDir, from, to),
         change := Moved, recordLastUpdateDate := now)
  }

  /** The table once every entry in or below `from` has moved under `to`. */
  function MoveChildren(t: Table, from: string, to: string, now: int): (r: Table)
    ensures r.Keys == t.Keys
    ensures forall k :: k in t && IsUnder(from, t[k].parentDir) ==>
              r[k].change == Moved && r[k].recordLastUpdateDate == now && r[k].name == t[k].name
    ensures forall k :: k in t && !IsUnder(from, t[k].parentDir) ==> r[k] == t[k]
  {
    map k | k in t :: if IsUnder(from, t[k].parentDir) then MoveRow(t[k], from, to, now) else t[k]
  }

  /** `updateDirName`: the directory's own row takes its new path and name. */
  function RenameDir(t: Table, newDir: FileInfo, now: int): Table
  {
    var key := newDir.disk.fileKey;
    if key in t then t[key := t[key].(path := GetPath(newDir), name := Name(newDir.rawPath), change := Renamed,
                                      recordLastUpdateDate := now)]
    else t
  }

  /** `updateDirPath`: the directory's own row takes its new path, parent and name. */
  function MoveDir(t: Table, newDir: FileInfo, now: int): Table
  {
    var key := newDir.disk.fileKey;
    if key in t then t[key := t[key].(path := GetPath(newDir), parentDir := GetParent(newDir), name := Name(newDir.rawPath),
                                      change := Moved, recordLastUpdateDate := now)]
    else t
  }

  /** Every entry that was in or below `from` ends up in or below `to`; no other path changes. */
  lemma MovedChildrenUnderTarget(t: Table, from: string, to: string, now: int)
    ensures var t' := MoveChildren(t, from, to, now);
            t'.Keys == t.Keys &&
            (forall k :: k in t && IsUnder(from, t[k].parentDir) ==>
               IsUnder(to, t'[k].parentDir) && t'[k].parentDir[|to|..] == t[k].parentDir[|from|..]) &&
            (forall k :: k in t && !IsUnder(from, t[k].parentDir) ==> t'[k] == t[k])
  {
    var t' := MoveChildren(t, from, to, now);
    forall k | k in t && IsUnder(from, t[k].parentDir)
      ensures IsUnder(to, t'[k].parentDir) && t'[k].parentDir[|to|..] == t[k].parentDir[|from|..]
    {
      var rest := t[k].parentDir[|from|..];
      assert t'[k].parentDir == to + rest;
      assert (to + rest)[..|to|] == to;
      assert (to + rest)[|to|..] == rest;
    }
  }

  /**
   * Moving a directory's entries from `from` to `to` and back restores every
   * path and parent directory, provided no path or parent was below `to` before.
   */
  lemma MoveChildrenRoundTrip(t: Table, from: string, to: string, now: int, later: int)
    requires forall k :: k in t ==> !IsUnder(to, t[k].parentDir) && !IsPrefix(to, t[k].path)
    ensures var back := MoveChildren(MoveChildren(t, from, to, now), to, from, later);
            back.Keys == t.Keys &&
            forall k :: k in t ==> back[k].path == t[k].path && back[k].parentDir == t[k].parentDir
  {
    var t' := MoveChildren(t, from, to, now);
    var back := MoveChildren(t', to, from, later);
    MovedChildrenUnderTarget(t, from, to, now);
    forall k | k in t
      ensures back[k].path == t[k].path && back[k].parentDir == t[k].parentDir
    {
      if IsUnder(from, t[k].parentDir) {
        MovedPathBack(t[k].parentDir, from, to);
        MovedPathBack(t[k].path, from, to);
        assert t'[k] == MoveRow(t[k], from, to, now);
      } else {
        assert t'[k] == t[k];
      }
    }
  }

  /** Moving a path from `from` to `to` and back gives the path again, and a path that was not below `from` stays. */
  lemma MovedPathBack(p: string, from: string, to: string)
    requires IsPrefix(from, p) || !IsPrefix(to, p)
    ensures IsPrefix(from, p) <==> IsPrefix(to, MovedPath(p, from, to))
    ensures MovedPath(MovedPath(p, from, to), to, from) == p
  {
    if IsPrefix(from, p) {
      var rest := p[|from|..];
      assert (to + rest)[..|to|] == to;
      assert (to + rest)[|to|..] == rest;
      assert from + rest == p;
    }
  }

  /** The table as written: an entry is selected when the old path occurs anywhere in its parent directory (`instr`), and every occurrence is replaced (`String.replace`). */
  function MoveChildrenAsWritten(t: Table, from: string, to: string, now: int): (r: Table)
    ensures r.Keys == t.Keys
    ensures forall k :: k in t && Contains(t[k].parentDir, from) ==> r[k].change == Moved && r[k].recordLastUpdateDate == now
    ensures forall k :: k in t && !Contains(t[k].parentDir, from) ==> r[k] == t[k]
  {
    map k | k in t :: if Contains(t[k].parentDir, from) then
                         t[k].(path := ReplaceAll(t[k].path, from, to), parentDir := ReplaceAll(t[k].parentDir, from, to),
                               change := Moved, recordLastUpdateDate := now)
                       else t[k]
  }

  /** `from` occurs in `s` as its leading part and nowhere else. */
  predicate OnlyLeading(from: string, s: string)
  {
    IsPrefix(from, s) && !Contains(s[|from|..], from)
  }

  /**
   * The selection as written agrees with the corrected one on every table in
   * which the old directory path occurs in a row's parent and path only as
   * their leading part, or not at all in the parent.
   */
  lemma AsWrittenAgreesWhenLeadingOnly(t: Table, from: string, to: string, now: int)
    requires from != ""
    requires forall k :: k in t ==>
               (OnlyLeading(from, t[k].parentDir) && OnlyLeading(from, t[k].path)) || !Contains(t[k].parentDir, from)
    ensures MoveChildrenAsWritten(t, from, to, now) == MoveChildren(t, from, to, now)
  {
    forall k | k in t
      ensures MoveChildrenAsWritten(t, from, to, now)[k] == MoveChildren(t, from, to, now)[k]
    {
      if Contains(t[k].parentDir, from) {
        ReplaceLeading(t[k].parentDir, from, to);
        ReplaceLeading(t[k].path, from, to);
      } else {
        PrefixContains(from, t[k].parentDir);
      }
    }
  }

  /** Replacing every occurrence in a path where `from` occurs only as the leading part replaces just that part. */
  lemma ReplaceLeading(s: string, from: string, to: string)
    requires from != "" && OnlyLeading(from, s)
    ensures ReplaceAll(s, from, to) == MovedPath(s, from, to)
  {
    ReplaceAllAbsent(s[|from|..], from, to);
  }

  /**
   * The directory "/s/a/" renamed to "/s/b/": the file "/t/s/a/f" of the
   * unrelated directory "/t/s/a/" is selected as written and renamed to
   * "/t/s/b/f", while the corrected rename leaves it where it is.
   */
  lemma MoveChildrenAsWrittenStrays(row: FileRecord, now: int)
    requires row.fileKey == "k" && row.parentDir == "/t/s/a/" && row.path == "/t/s/a/f"
    ensures var t := map["k" := row];
            MoveChildrenAsWritten(t, "/s/a/", "/s/b/", now)["k"].path == "/t/s/b/f" &&
            MoveChildren(t, "/s/a/", "/s/b/", now)["k"] == row
  {
    var from, to := "/s/a/", "/s/b/";
    assert row.parentDir[..|from|][1] == 't' && from[1] == 's';
    assert !IsPrefix(from, row.parentDir);
    assert row.parentDir[2..][..|from|] == from;
    assert Contains(row.parentDir[2..], from);
    assert Contains(row.parentDir[1..], from);
    assert Contains(row.parentDir, from);
    var p := row.path;
    assert p[..|from|][1] == 't';
    assert p[..|from|] != from;
    assert ReplaceAll(p[2..][|from|..], from, to) == "f";
    assert p[2..][..|from|] == from;
    assert ReplaceAll(p[2..], from, to) == "/s/b/f";
    assert p[1..][..|from|][0] == 't';
    assert p[1..][..|from|] != from;
    assert ReplaceAll(p[1..], from, to) == "t/s/b/f";
    assert ReplaceAll(p, from, to) == "/t/s/b/f";
  }

  // ---------------------------------------------------------------------------
  // updateFilesLastRNPath / updateFilesStatusByLastRNPath
  // ---------------------------------------------------------------------------

  /** `updateFileLastRNPath`: the row of the record's key remembers the path the app was shown. */
  function WithLastRNPath(t: Table, rec: PartialFileRecord, now: int): Table
  {
    var key := rec.fileKey;
    if key in t && t[key].lastRNPath != rec.path then t[key := t[key].(lastRNPath := rec.path, recordLastUpdateDate := now)]
    else t
  }

  /** `WithLastRNPath` for each record in turn. */
  function WithLastRNPaths(t: Table, recs: seq<PartialFileRecord>, now: int): Table
    decreases |recs|
  {
    if recs == [] then t else WithLastRNPath(WithLastRNPaths(t, recs[..|recs| - 1], now), recs[|recs| - 1], now)
  }

  /**
   * After the records shown to the app are written back, each row of the
   * table remembers the path of the last record with its key, and a row no
   * record names is unchanged.
   */
  lemma {:induction false} LastRNPathsRecorded(t: Table, recs: seq<PartialFileRecord>, now: int)
    ensures var t' := WithLastRNPaths(t, recs, now);
            t'.Keys == t.Keys &&
            forall k :: k in t ==>
              t'[k].(lastRNPath := t[k].lastRNPath, recordLastUpdateDate := t[k].recordLastUpdateDate) == t[k] &&
              t'[k].lastRNPath == LastPathFor(recs, k, t[k].lastRNPath)
    decreases |recs|
  {
    if recs != [] {
      var init, r := recs[..|recs| - 1], recs[|recs| - 1];
      LastRNPathsRecorded(t, init, now);
      var t0 := WithLastRNPaths(t, init, now);
      var t' := WithLastRNPath(t0, r, now);
      assert WithLastRNPaths(t, recs, now) == t';
      forall k | k in t
        ensures t'[k].(lastRNPath := t[k].lastRNPath, recordLastUpdateDate := t[k].recordLastUpdateDate) == t[k]
        ensures t'[k].lastRNPath == LastPathFor(recs, k, t[k].lastRNPath)
      {
        assert LastPathFor(recs, k, t[k].lastRNPath) ==
               if r.fileKey == k then r.path else LastPathFor(init, k, t[k].lastRNPath);
      }
    }
  }

  /** The path of the last record with key `key`, or `otherwise` when there is none. */
  function LastPathFor(recs: seq<PartialFileRecord>, key: string, otherwise: string): string
    decreases |recs|
  {
    if recs == [] then otherwise
    else if recs[|recs| - 1].fileKey == key then recs[|recs| - 1].path
    else LastPathFor(recs[..|recs| - 1], key, otherwise)
  }

  /** `updateFileStatusByLastRNPath`: every row the app knows by `rec.lastRNPath` takes the status. */
  function WithStatus(t: Table, rec: FileStatusRecord, now: int): Table
  {
    map k | k in t :: if t[k].lastRNPath == rec.lastRNPath then t[k].(status := rec.status, recordLastUpdateDate := now) else t[k]
  }

  /** `WithStatus` for each record in turn. */
  function WithStatuses(t: Table, recs: seq<FileStatusRecord>, now: int): Table
    decreases |recs|
  {
    if recs == [] then t else WithStatus(WithStatuses(t, recs[..|recs| - 1], now), recs[|recs| - 1], now)
  }

  /** The status of the last record for the path `p`, if any. */
  function LastStatusFor(recs: seq<FileStatusRecord>, p: string): Option<FileStatus>
    decreases |recs|
  {
    if recs == [] then None
    else if recs[|recs| - 1].lastRNPath == p then Some(recs[|recs| - 1].status)
    else LastStatusFor(recs[..|recs| - 1], p)
  }

  /**
   * After the app's status updates are written, each row has the status of
   * the last update for the path the app knows it by, and a row no update
   * names keeps its status; nothing else in a row but its date changes.
   */
  lemma {:induction false} StatusesApplied(t: Table, recs: seq<FileStatusRecord>, now: int)
    ensures var t' := WithStatuses(t, recs, now);
            t'.Keys == t.Keys &&
            forall k :: k in t ==>
              t'[k].(status := t[k].status, recordLastUpdateDate := t[k].recordLastUpdateDate) == t[k] &&
              t'[k].status == (match LastStatusFor(recs, t[k].lastRNPath) case Some(s) => s case None => t[k].status)
    decreases |recs|
  {
    if recs != [] {
      StatusesApplied(t, recs[..|recs| - 1], now);
    }
  }

  // ---------------------------------------------------------------------------
  // The count queries
  // ---------------------------------------------------------------------------

  /** `getTotalFilesCountAllFileStatus`: the files (not directories) in the table. */
  function CountFiles(t: Table): (r: nat)
    ensures r <= |t|
    ensures r == 0 <==> forall k :: k in t ==> t[k].isDir
  {
    var files := set k | k in t && !t[k].isDir;
    assert forall k :: k in t && !t[k].isDir ==> k in files;
    SubsetCard(files, t.Keys);
    |files|
  }

  /** `getTotalFilesCountByFileStatus`: the files with the given status. */
  function CountFilesWithStatus(t: Table, s: FileStatus): (r: nat)
    ensures r == 0 <==> forall k :: k in t && !t[k].isDir ==> t[k].status != s
  {
    var files := set k | k in t && !t[k].isDir && t[k].status == s;
    assert forall k :: k in t && !t[k].isDir && t[k].status == s ==> k in files;
    |files|
  }

  /** `getTotalFilesCountByFileStatusDeleted`: the files marked deleted. */
  function CountDeletedFiles(t: Table): (r: nat)
    ensures r == 0 <==> forall k :: k in t && !t[k].isDir ==> t[k].change != Change.Deleted
  {
    var files := set k | k in t && !t[k].isDir && t[k].change == Change.Deleted;
    assert forall k :: k in t && !t[k].isDir && t[k].change == Change.Deleted ==> k in files;
    |files|
  }

  /** No filtered count exceeds the count of all files. */
  lemma CountsBounded(t: Table, s: FileStatus)
    ensures CountFilesWithStatus(t, s) <= CountFiles(t) && CountDeletedFiles(t) <= CountFiles(t)
  {
    var all := set k | k in t && !t[k].isDir;
    var withStatus := set k | k in t && !t[k].isDir && t[k].status == s;
    var deleted := set k | k in t && !t[k].isDir && t[k].change == Change.Deleted;
    SubsetCard(withStatus, all);
    SubsetCard(deleted, all);
  }

  lemma SubsetCard<T>(a: set<T>, b: set<T>)
    requires a <= b
    ensures |a| <= |b|
  {
    assert b == a + (b - a);
  }

  /** The data-access object over the files table; `events` is the events manager it reports to. */
  class FilesDao {
    var rows: Table
    const events: EventsManager

    predicate Valid()
      reads this
    {
      Keyed(rows)
    }

    constructor(events: EventsManager)
      ensures rows == map[] && this.events == events && Valid()
    {
      rows := map[];
      this.events := events;
    }

    /** The change `addFileOrUpdateIFExists` finds between a row and the file now on disk, each later test overriding the earlier. */
    static method ClassifyChange(row: FileRecord, o: Observed) returns (change: Change)
      ensures change == ChangeOf(row, o)
    {
      change := NoChange;
      if row.path != o.path || row.parentDir != o.parent {
        change := Moved;
      }
      if row.name != o.name {
        change := Renamed;
      }
      if !o.isDir && row.size != o.length {
        change := Modified;
      }
    }

    /** `addFileOrUpdateIFExists(fileInfo)`; `now` is the clock reading, `hasContext` whether the app's context is alive. */
    method AddFileOrUpdateIfExists(config: SyncConfig, f: FileInfo, now: int, hasContext: bool)
      requires Valid()
      modifies this, events
      ensures Valid()
      ensures rows == Scanned(config, old(rows), f, now)
      ensures (events.lastEvent, events.broadcasts) ==
                Announce(old(events.lastEvent), old(events.broadcasts), NoticeOf(Lookup(old(rows), f.disk.fileKey), Observe(config, f)), hasContext)
    {
      var key := f.disk.fileKey;
      if key !in rows {
        rows := rows[key := Build(config, f, now)];
        events.SendScanStatusRNEvent(ScanStatusNewFile, hasContext);
      } else {
        UpdateIfChanged(Observe(config, f), now, hasContext);
      }
    }

    /** The branch of `addFileOrUpdateIFExists` for a file whose key has a row. */
    method UpdateIfChanged(o: Observed, now: int, hasContext: bool)
      requires Valid() && o.fileKey in rows
      modifies this, events
      ensures Valid()
      ensures rows == old(rows)[o.fileKey := Refreshed(old(rows)[o.fileKey], o, now)]
      ensures (events.lastEvent, events.broadcasts) ==
                Announce(old(events.lastEvent), old(events.broadcasts), NoticeOf(Some(old(rows)[o.fileKey]), o), hasContext)
    {
      var row := rows[o.fileKey];
      var change := ClassifyChange(row, o);
      var lastRNPath := if row.lastRNPath == "" then o.path else row.lastRNPath;
      if change != NoChange {
        rows := rows[o.fileKey := UpdateFileByKey(row, o, change, now)];
        if change == Modified {
          events.SendFileChangeRNEvent(lastRNPath, o.length, hasContext);
        }
      } else if row.change == Change.Deleted {
        rows := rows[o.fileKey := UpdateFileChangeStatus(row, Created, now)];
        events.SendFileChangeRNEvent(lastRNPath, o.length, hasContext);
      } else {
        assert rows == rows[o.fileKey := row];
      }
    }

    /** `addFilesOrUpdateIfExists(filesList)`. */
    method AddFilesOrUpdateIfExists(config: SyncConfig, files: seq<FileInfo>, now: int, hasContext: bool)
      requires Valid()
      modifies this, events
      ensures Valid()
      ensures (rows, events.lastEvent, events.broadcasts) ==
                ScanAll(config, old(rows), old(events.lastEvent), old(events.broadcasts), files, now, hasContext)
    {
      var i := 0;
      while i < |files|
        invariant 0 <= i <= |files| && Valid()
        invariant (rows, events.lastEvent, events.broadcasts) ==
                    ScanAll(config, old(rows), old(events.lastEvent), old(events.broadcasts), files[..i], now, hasContext)
      {
        ScanAllStep(config, old(rows), old(events.lastEvent), old(events.broadcasts), files, i, now, hasContext);
        AddFileOrUpdateIfExists(config, files[i], now, hasContext);
        i := i + 1;
      }
      assert files[..i] == files;
    }

    /** Moves every entry in or below `from` under `to`, as the directory updates do for their sub files. */
    method MoveSubFiles(from: string, to: string, now: int)
      requires Valid()
      modifies this
      ensures Valid()
      ensures rows == MoveChildren(old(rows), from, to, now)
    {
      var children := set k | k in rows && IsUnder(from, rows[k].parentDir);
      ghost var t := rows;
      var todo := children;
      while todo != {}
        invariant todo <= children && rows.Keys == t.Keys && Valid()
        invariant forall k :: k in t ==> rows[k] == if k in children && k !in todo then MoveRow(t[k], from, to, now) else t[k]
        decreases |todo|
      {
        var k :| k in todo;
        rows := rows[k := MoveRow(rows[k], from, to, now)];
        todo := todo - {k};
      }
      assert rows == MoveChildren(t, from, to, now);
    }

    /** `updateDirNameAndItsSubFiles(oldDir, newDir)`, selecting the sub files by their leading path. */
    method UpdateDirNameAndItsSubFiles(oldDir: FileInfo, newDir: FileInfo, now: int)
      requires Valid()
      modifies this
      ensures Valid()
      ensures rows == MoveChildren(RenameDir(old(rows), newDir, now), GetPath(oldDir), GetPath(newDir), now)
    {
      var key := newDir.disk.fileKey;
      if key in rows {
        rows := rows[key := rows[key].(path := GetPath(newDir), name := Name(newDir.rawPath), change := Renamed,
                                       recordLastUpdateDate := now)];
      }
      MoveSubFiles(GetPath(oldDir), GetPath(newDir), now);
    }

    /** `updateDirPathAndItsSubFiles(oldDir, newDir)`, selecting the sub files by their leading path. */
    method UpdateDirPathAndItsSubFiles(oldDir: FileInfo, newDir: FileInfo, now: int)
      requires Valid()
      modifies this
      ensures Valid()
      ensures rows == MoveChildren(MoveDir(old(rows), newDir, now), GetPath(oldDir), GetPath(newDir), now)
    {
      var key := newDir.disk.fileKey;
      if key in rows {
        rows := rows[key := rows[key].(path := GetPath(newDir), parentDir := GetParent(newDir), name := Name(newDir.rawPath),
                                       change := Moved, recordLastUpdateDate := now)];
      }
      MoveSubFiles(GetPath(oldDir), GetPath(newDir), now);
    }

    /** `updateFilesLastRNPath(filesList)`. */
    method UpdateFilesLastRNPath(records: seq<PartialFileRecord>, now: int)
      requires Valid()
      modifies this
      ensures Valid()
      ensures rows == WithLastRNPaths(old(rows), records, now)
    {
      var i := 0;
      while i < |records|
        invariant 0 <= i <= |records| && Valid()
        invariant rows == WithLastRNPaths(old(rows), records[..i], now)
      {
        var rec := records[i];
        if rec.fileKey in rows && rows[rec.fileKey].lastRNPath != rec.path {
          rows := rows[rec.fileKey := rows[rec.fileKey].(lastRNPath := rec.path, recordLastUpdateDate := now)];
        }
        assert records[..i + 1][..i] == records[..i];
        i := i + 1;
      }
      assert records[..i] == records;
    }

    /** `updateFilesStatusByLastRNPath(filesList)`. */
    method UpdateFilesStatusByLastRNPath(records: seq<FileStatusRecord>, now: int)
      requires Valid()
      modifies this
      ensures Valid()
      ensures rows == WithStatuses(old(rows), records, now)
    {
      var i := 0;
      while i < |records|
        invariant 0 <= i <= |records| && Valid()
        invariant rows == WithStatuses(old(rows), records[..i], now)
      {
        var rec := records[i];
        rows := map k | k in rows :: if rows[k].lastRNPath == rec.lastRNPath then rows[k].(status := rec.status, recordLastUpdateDate := now) else rows[k];
        assert records[..i + 1][..i] == records[..i];
        i := i + 1;
      }
      assert records[..i] == records;
    }
  }
}
