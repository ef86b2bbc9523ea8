/**
 * The download queue of the mobile app (`DownloadQueueModel`): files waiting
 * to be downloaded, keyed by location, the files already downloaded, a
 * counter of failures kept by hand, and the file the downloader is working on.
 */
module DownloadQueue {
  import opened Wrappers
  import opened OrderedMaps

  datatype DownloadStatus = NeedDownload | InProgress | Success | Failed | Cancelled

  /**
   * `FileDownloadModel`.  `location` is its identifier, so a map of downloads
   * holds each one under its location.  `type` is `mimeType` here.
   */
  datatype FileDownload = FileDownload(
    name: string,
    location: string,
    mimeType: Option<string>,
    size: Option<int>,
    status: DownloadStatus,
    progress: int,
    path: string)

  type Downloads = Entries<string, FileDownload>

  /** `updateStatus(status, 0, path, fileName)`. */
  function UpdateStatus(f: FileDownload, status: DownloadStatus, path: string, fileName: string): FileDownload
  {
    f.(status := status, progress := 0, path := path, name := fileName)
  }

  predicate IsFailed(f: FileDownload) { f.status == Failed }
  predicate IsCancelled(f: FileDownload) { f.status == Cancelled }
  predicate IsNeedDownload(f: FileDownload) { f.status == NeedDownload }
  predicate IsInProgress(f: FileDownload) { f.status == InProgress }
  /** The statuses `currentlyDownloadingCount` counts. */
  predicate IsDownloading(f: FileDownload) { f.status == InProgress || f.status == NeedDownload }

  /** A download's identifier. */
  function LocationOf(f: FileDownload): string
  {
    f.location
  }

  /** What `set(key, value)` stores: the value's name, type, size and path under `key`, waiting, at progress 0. */
  function Queued(key: string, value: FileDownload): (r: FileDownload)
    ensures r.location == key && r.status == NeedDownload && r.progress == 0
    ensures r.name == value.name && r.path == value.path && r.mimeType == value.mimeType && r.size == value.size
  {
    FileDownload(value.name, key, value.mimeType, value.size, NeedDownload, 0, value.path)
  }

  /** The live download under `key` after `updateStatus(status, 0, path, fileName)`; no change when there is none. */
  function Restatus(m: Downloads, key: string, status: DownloadStatus, path: string, fileName: string): (r: Downloads)
    ensures Absent(m, key) ==> r == m
    ensures forall k :: Get(r, k) ==
              if k == key && Get(m, k).Some? then Some(UpdateStatus(Get(m, k).value, status, path, fileName)) else Get(m, k)
  {
    match Get(m, key)
    case None => m
    case Some(f) =>
      var w := UpdateStatus(f, status, path, fileName);
      var r := Put(m, key, w);
      assert forall k :: Get(r, k) == if k == key then Some(w) else Get(m, k) by {
        forall k ensures Get(r, k) == if k == key then Some(w) else Get(m, k) {
          GetPut(m, key, w, k);
        }
      }
      r
  }

  lemma KeyedRestatus(m: Downloads, key: string, status: DownloadStatus, path: string, fileName: string)
    requires KeyedBy(m, LocationOf)
    ensures KeyedBy(Restatus(m, key, status, path, fileName), LocationOf)
  {
    if Get(m, key).Some? {
      KeyedByGet(m, key, LocationOf);
      KeyedByPut(m, UpdateStatus(Get(m, key).value, status, path, fileName), LocationOf);
    }
  }

  // ---------------------------------------------------------------- the per-entry steps of the forEach actions

  /** `retryAllFailed`: a failed or cancelled download waits again, keeping its path and name. */
  function RetryStep(f: FileDownload): Option<FileDownload>
  {
    if f.status == Failed || f.status == Cancelled then Some(UpdateStatus(f, NeedDownload, f.path, f.name)) else Some(f)
  }

  /** `dismissAllFailed`: a failed or cancelled download is deleted. */
  function DropFailed(f: FileDownload): Option<FileDownload>
  {
    if f.status == Failed || f.status == Cancelled then None else Some(f)
  }

  /** `dismissAllNeedDownload`: a waiting download is deleted. */
  function DropNeedDownload(f: FileDownload): Option<FileDownload>
  {
    if f.status == NeedDownload then None else Some(f)
  }

  /** `dismissAllInProgress`: a download in progress is deleted. */
  function DropInProgress(f: FileDownload): Option<FileDownload>
  {
    if f.status == InProgress then None else Some(f)
  }

  /** `resetLoadingErrorFailAll`: every download fails, keeping its path and (by the default argument) its name. */
  function FailAll(f: FileDownload): Option<FileDownload>
  {
    Some(UpdateStatus(f, Failed, f.path, f.name))
  }

  /** `resetLoadingError`: a download in progress waits again. */
  function RequeueInProgress(f: FileDownload): Option<FileDownload>
  {
    if f.status == InProgress then Some(UpdateStatus(f, NeedDownload, f.path, f.name)) else Some(f)
  }

  /** `dismissFile`: the download at `location` is cancelled. */
  function CancelAt(location: string): FileDownload -> Option<FileDownload>
  {
    (f: FileDownload) => CancelStep(location, f)
  }

  function CancelStep(location: string, f: FileDownload): Option<FileDownload>
  {
    if f.location == location then Some(UpdateStatus(f, Cancelled, f.path, f.name)) else Some(f)
  }

  /** `removeFileFromQueue`: the download at `location` is deleted. */
  function DropAt(location: string): FileDownload -> Option<FileDownload>
  {
    (f: FileDownload) => DropStep(location, f)
  }

  function DropStep(location: string, f: FileDownload): Option<FileDownload>
  {
    if f.location == location then None else Some(f)
  }

  lemma StepsKeepLocation(location: string)
    ensures KeepsId(RetryStep, LocationOf) && KeepsId(DropFailed, LocationOf)
    ensures KeepsId(DropNeedDownload, LocationOf) && KeepsId(DropInProgress, LocationOf)
    ensures KeepsId(FailAll, LocationOf) && KeepsId(RequeueInProgress, LocationOf)
    ensures KeepsId(CancelAt(location), LocationOf) && KeepsId(DropAt(location), LocationOf)
  {
    forall f: FileDownload
      ensures CancelAt(location)(f).Some? ==> CancelAt(location)(f).value.location == f.location
    {
    }
  }

  // ---------------------------------------------------------------- what the actions leave

  /** Waiting and in-progress downloads are counted apart and together alike. */
  lemma {:induction false} DownloadingCount(m: Downloads)
    ensures CountWhere(m, IsDownloading) == CountWhere(m, IsInProgress) + CountWhere(m, IsNeedDownload)
  {
    if m != [] {
      DownloadingCount(m[1..]);
    }
  }

  /** The forEach of `dismissFile` touches the download at that location only. */
  lemma CancelAtGet(m: Downloads, location: string, k: string)
    requires KeyedBy(m, LocationOf)
    ensures Get(MapValues(m, CancelAt(location)), k) ==
              if k == location && Get(m, k).Some? then Some(UpdateStatus(Get(m, k).value, Cancelled, Get(m, k).value.path, Get(m, k).value.name))
              else Get(m, k)
  {
    GetMapValues(m, CancelAt(location), k);
    KeyedByGet(m, k, LocationOf);
    if Get(m, k).Some? {
      assert CancelAt(location)(Get(m, k).value) == CancelStep(location, Get(m, k).value);
    }
  }

  /** The forEach of `removeFileFromQueue` deletes the download at that location only. */
  lemma DropAtGet(m: Downloads, location: string, k: string)
    requires KeyedBy(m, LocationOf)
    ensures Get(MapValues(m, DropAt(location)), k) == if k == location then None else Get(m, k)
  {
    GetMapValues(m, DropAt(location), k);
    KeyedByGet(m, k, LocationOf);
    if Get(m, k).Some? {
      assert DropAt(location)(Get(m, k).value) == DropStep(location, Get(m, k).value);
    }
  }

  /** After `retryAllFailed` nothing has failed or been cancelled; all those downloads wait again. */
  lemma {:induction false} RetryCounts(m: Downloads)
    ensures |MapValues(m, RetryStep)| == |m|
    ensures CountWhere(MapValues(m, RetryStep), IsFailed) == 0
    ensures CountWhere(MapValues(m, RetryStep), IsCancelled) == 0
    ensures CountWhere(MapValues(m, RetryStep), IsNeedDownload) ==
              CountWhere(m, IsNeedDownload) + CountWhere(m, IsFailed) + CountWhere(m, IsCancelled)
  {
    if m != [] {
      RetryCounts(m[1..]);
      CountMapValuesCons(m, RetryStep, IsFailed);
      CountMapValuesCons(m, RetryStep, IsCancelled);
      CountMapValuesCons(m, RetryStep, IsNeedDownload);
    }
  }

  /** After `dismissAllFailed` nothing has failed or been cancelled, and exactly those downloads are gone. */
  lemma {:induction false} DismissAllFailedCounts(m: Downloads)
    ensures CountWhere(MapValues(m, DropFailed), IsFailed) == 0
    ensures CountWhere(MapValues(m, DropFailed), IsCancelled) == 0
    ensures |MapValues(m, DropFailed)| == |m| - CountWhere(m, IsFailed) - CountWhere(m, IsCancelled)
  {
    if m != [] {
      DismissAllFailedCounts(m[1..]);
      CountMapValuesCons(m, DropFailed, IsFailed);
      CountMapValuesCons(m, DropFailed, IsCancelled);
    }
  }

  /** After `dismissAllNeedDownload` nothing waits, and exactly the waiting downloads are gone. */
  lemma {:induction false} DismissAllNeedDownloadCounts(m: Downloads)
    ensures CountWhere(MapValues(m, DropNeedDownload), IsNeedDownload) == 0
    ensures |MapValues(m, DropNeedDownload)| == |m| - CountWhere(m, IsNeedDownload)
  {
    if m != [] {
      DismissAllNeedDownloadCounts(m[1..]);
      CountMapValuesCons(m, DropNeedDownload, IsNeedDownload);
    }
  }

  /** After `dismissAllInProgress` nothing is in progress, and exactly those downloads are gone. */
  lemma {:induction false} DismissAllInProgressCounts(m: Downloads)
    ensures CountWhere(MapValues(m, DropInProgress), IsInProgress) == 0
    ensures |MapValues(m, DropInProgress)| == |m| - CountWhere(m, IsInProgress)
  {
    if m != [] {
      DismissAllInProgressCounts(m[1..]);
      CountMapValuesCons(m, DropInProgress, IsInProgress);
    }
  }

  /** After `resetLoadingErrorFailAll` every download has failed. */
  lemma {:induction false} FailAllCounts(m: Downloads)
    ensures |MapValues(m, FailAll)| == |m|
    ensures CountWhere(MapValues(m, FailAll), IsFailed) == |m|
  {
    if m != [] {
      FailAllCounts(m[1..]);
      CountMapValuesCons(m, FailAll, IsFailed);
    }
  }

  /** After `resetLoadingError` nothing is in progress; those downloads wait again. */
  lemma {:induction false} RequeueCounts(m: Downloads)
    ensures |MapValues(m, RequeueInProgress)| == |m|
    ensures CountWhere(MapValues(m, RequeueInProgress), IsInProgress) == 0
    ensures CountWhere(MapValues(m, RequeueInProgress), IsNeedDownload) ==
              CountWhere(m, IsNeedDownload) + CountWhere(m, IsInProgress)
  {
    if m != [] {
      RequeueCounts(m[1..]);
      CountMapValuesCons(m, RequeueInProgress, IsInProgress);
      CountMapValuesCons(m, RequeueInProgress, IsNeedDownload);
    }
  }

  // ---------------------------------------------------------------- getStatus

  /** What `getStatus` reports: `'failed'`, `'in-progress'` or `'not-found'`. */
  datatype QueueStatus = ReportFailed | ReportInProgress | ReportNotFound

  class Queue {
    var queueMap: Downloads
    var successMap: Downloads
    /** A plain number: nothing keeps it equal to the failed entries, and it may go below zero. */
    var failCount: int
    /** The location `_observedFile` refers to; the reference may dangle. */
    var observed: Option<string>

    ghost predicate Valid()
      reads this
    {
      KeyedBy(queueMap, LocationOf) && KeyedBy(successMap, LocationOf)
    }

    constructor()
      ensures Valid() && queueMap == [] && successMap == [] && failCount == 0 && observed == None
    {
      queueMap := [];
      successMap := [];
      failCount := 0;
      observed := None;
    }

    /** What `_observedFile` resolves to: the download under its location, if the queue still holds one. */
    function Resolved(): (r: Option<FileDownload>)
      reads this
      ensures r.Some? ==> observed.Some? && (observed.value, r.value) in queueMap
      ensures r.None? ==> observed.None? || Absent(queueMap, observed.value)
    {
      if observed.None? then None else Get(queueMap, observed.value)
    }

    /** The `observedFile` view: a reference that no longer resolves is cleared. */
    method ObservedFile() returns (f: Option<FileDownload>)
      modifies this
      ensures f == old(Resolved())
      ensures observed == if f.None? then None else old(observed)
      ensures queueMap == old(queueMap) && successMap == old(successMap) && failCount == old(failCount)
    {
      if observed.None? {
        return None;
      }
      f := Get(queueMap, observed.value);
      if f.None? {
        observed := None;
      }
    }

    /** The `cancelledCount` view. */
    function CancelledCount(): (r: nat)
      reads this
      ensures r == 0 <==> forall i :: 0 <= i < |queueMap| ==> !IsCancelled(queueMap[i].1)
      ensures r == CountWhere(queueMap, IsCancelled)
    {
      |ValuesWhere(queueMap, IsCancelled)|
    }

    /** The `currentlyDownloadingCount` view: the downloads in progress plus those waiting. */
    function CurrentlyDownloadingCount(): (r: nat)
      reads this
      ensures r == CountWhere(queueMap, IsInProgress) + CountWhere(queueMap, IsNeedDownload)
    {
      DownloadingCount(queueMap);
      |ValuesWhere(queueMap, IsDownloading)|
    }

    /** `currentlyDownloading`: the first download in progress, in queue order. */
    function CurrentlyDownloading(): (r: Option<FileDownload>)
      reads this
      ensures r.Some? ==> r.value.status == InProgress
      ensures r.Some? ==> exists i :: 0 <= i < |queueMap| && queueMap[i].1 == r.value &&
                            forall j :: 0 <= j < i ==> queueMap[j].1.status != InProgress
      ensures r.None? <==> forall i :: 0 <= i < |queueMap| ==> queueMap[i].1.status != InProgress
    {
      FirstWhere(queueMap, IsInProgress)
    }

    /** `filesCurrentlyInNextUp`: the waiting downloads, in queue order. */
    function FilesCurrentlyInNextUp(): (r: seq<FileDownload>)
      reads this
      ensures r == ValuesWhere(queueMap, IsNeedDownload)
      ensures |r| == CountWhere(queueMap, IsNeedDownload)
      ensures forall x :: 0 <= x < |r| ==> r[x].status == NeedDownload
      ensures r == [] <==> forall i :: 0 <= i < |queueMap| ==> queueMap[i].1.status != NeedDownload
    {
      ValuesWhere(queueMap, IsNeedDownload)
    }

    /** `set(key, value)`: the stored download takes `key` as its location and starts waiting. */
    method Set(key: string, value: FileDownload)
      requires Valid()
      modifies this
      ensures Valid() && queueMap == Put(old(queueMap), key, Queued(key, value))
      ensures forall k :: Get(queueMap, k) == if k == key then Some(Queued(key, value)) else Get(old(queueMap), k)
      ensures successMap == old(successMap) && failCount == old(failCount) && observed == old(observed)
    {
      forall k ensures Get(Put(queueMap, key, Queued(key, value)), k) ==
                       if k == key then Some(Queued(key, value)) else Get(queueMap, k) {
        GetPut(queueMap, key, Queued(key, value), k);
      }
      KeyedByPut(queueMap, Queued(key, value), LocationOf);
      queueMap := Put(queueMap, key, Queued(key, value));
    }

    /** `delete(key)`. */
    method Delete(key: string)
      requires Valid()
      modifies this
      ensures Valid() && queueMap == Remove(old(queueMap), key)
      ensures successMap == old(successMap) && failCount == old(failCount) && observed == old(observed)
    {
      KeyedByRemove(queueMap, key, LocationOf);
      queueMap := Remove(queueMap, key);
    }

    /** `merge(items)`: each download is stored under its location, in order. */
    method Merge(items: seq<FileDownload>)
      requires Valid()
      modifies this
      ensures Valid() && successMap == old(successMap) && failCount == old(failCount) && observed == old(observed)
      ensures forall f :: f in items ==> Get(queueMap, f.location).Some?
      ensures forall k :: (forall f :: f in items ==> f.location != k) ==> Get(queueMap, k) == Get(old(queueMap), k)
      ensures queueMap == PutAll(old(queueMap), items, LocationOf)
      ensures forall k :: LastWithId(items, LocationOf, k).Some? ==> Get(queueMap, k) == LastWithId(items, LocationOf, k)
    {
      for i := 0 to |items|
        invariant Valid() && successMap == old(successMap) && failCount == old(failCount) && observed == old(observed)
        invariant queueMap == PutAll(old(queueMap), items[..i], LocationOf)
      {
        KeyedByPut(queueMap, items[i], LocationOf);
        queueMap := Put(queueMap, items[i].location, items[i]);
        assert items[..i + 1] == items[..i] + [items[i]];
        assert items[..i + 1][..i] == items[..i];
      }
      assert items[..|items|] == items;
      forall k ensures Get(queueMap, k) == if LastWithId(items, LocationOf, k).Some? then LastWithId(items, LocationOf, k) else Get(old(queueMap), k) {
        GetPutAll(old(queueMap), items, LocationOf, k);
      }
    }

    /** `setObservedFileDownload`. */
    method SetObservedFileDownload(location: Option<string>)
      modifies this
      ensures observed == location
      ensures queueMap == old(queueMap) && successMap == old(successMap) && failCount == old(failCount)
    {
      observed := location;
    }

    /** `clearSuccessful`. */
    method ClearSuccessful()
      modifies this
      ensures successMap == []
      ensures queueMap == old(queueMap) && failCount == old(failCount) && observed == old(observed)
    {
      successMap := [];
    }

    /** `setFailCount`. */
    method SetFailCount(val: int)
      modifies this
      ensures failCount == val
      ensures queueMap == old(queueMap) && successMap == old(successMap) && observed == old(observed)
    {
      failCount := val;
    }

    /** `updateFileStatusForCancelled`: one more failure counted. */
    method UpdateFileStatusForCancelled()
      modifies this
      ensures failCount == old(failCount) + 1
      ensures queueMap == old(queueMap) && successMap == old(successMap) && observed == old(observed)
    {
      SetFailCount(failCount + 1);
    }

    /**
     * `updateFileStatus(file, status, path, fileName)`.  In progress makes
     * `file` the observed download, unless other downloads wait and `file`
     * was cancelled or failed.  Failed and cancelled update the live download
     * (failed also counts a failure; cancelled clears the observed file).
     * Any other status clears the observed file and moves a copy of `file`,
     * with the new path and name and its status unchanged, from the queue to
     * the success map.
     */
    method UpdateFileStatus(file: FileDownload, status: DownloadStatus, path: string, fileName: string)
      requires Valid()
      modifies this
      ensures Valid()
      ensures status == InProgress ==>
                queueMap == old(queueMap) && successMap == old(successMap) && failCount == old(failCount) &&
                observed == if CountWhere(queueMap, IsNeedDownload) > 0 && (file.status == Cancelled || file.status == Failed)
                            then old(observed) else Some(file.location)
      ensures status == Failed ==>
                queueMap == Restatus(old(queueMap), file.location, Failed, path, fileName) &&
                successMap == old(successMap) && failCount == old(failCount) + 1 && observed == old(observed)
      ensures status == Cancelled ==>
                queueMap == Restatus(old(queueMap), file.location, Cancelled, path, fileName) &&
                successMap == old(successMap) && failCount == old(failCount) && observed == None
      ensures (status == NeedDownload || status == Success) ==>
                observed == None && failCount == old(failCount) &&
                queueMap == Remove(old(queueMap), file.location) &&
                successMap == Put(old(successMap), file.location, file.(path := path, name := fileName))
    {
      match status {
        case InProgress =>
          var nextUp := FilesCurrentlyInNextUp();
          if |nextUp| > 0 && (file.status == Cancelled || file.status == Failed) {
            return;
          }
          SetObservedFileDownload(Some(file.location));
        case Failed =>
          KeyedRestatus(queueMap, file.location, Failed, path, fileName);
          queueMap := Restatus(queueMap, file.location, Failed, path, fileName);
          UpdateFileStatusForCancelled();
        case Cancelled =>
          KeyedRestatus(queueMap, file.location, Cancelled, path, fileName);
          queueMap := Restatus(queueMap, file.location, Cancelled, path, fileName);
          SetObservedFileDownload(None);
        case _ =>
          SetObservedFileDownload(None);
          var snapshot := file.(path := path, name := fileName);
          Delete(snapshot.location);
          KeyedByPut(successMap, snapshot, LocationOf);
          successMap := Put(successMap, snapshot.location, snapshot);
      }
    }

    /** `getNextToDownload`: the first waiting download; its guard against a cancelled one never fires. */
    function GetNextToDownload(): (r: Option<FileDownload>)
      reads this
      ensures r == FirstWhere(queueMap, IsNeedDownload)
      ensures r.Some? ==> r.value.status == NeedDownload
      ensures r.None? <==> forall i :: 0 <= i < |queueMap| ==> queueMap[i].1.status != NeedDownload
    {
      var file := FirstWhere(queueMap, IsNeedDownload);
      if file.Some? && file.value.status != Cancelled then file else None
    }

    /** `isAlreadyInQueue`. */
    function IsAlreadyInQueue(file: FileDownload): (r: bool)
      reads this
      ensures r <==> !Absent(queueMap, file.location)
    {
      Get(queueMap, file.location).Some?
    }

    /** `getStatus`: whether the file's location is queued, and, going by the status it carries, whether it failed. */
    function GetStatus(file: FileDownload): (r: QueueStatus)
      reads this
      ensures r == ReportNotFound <==> Absent(queueMap, file.location)
      ensures r == ReportFailed <==> !Absent(queueMap, file.location) && file.status == Failed
      ensures r == ReportInProgress <==> !Absent(queueMap, file.location) && file.status != Failed
    {
      if IsAlreadyInQueue(file) then
        if file.status == Failed then ReportFailed else ReportInProgress
      else ReportNotFound
    }

    /** `retryFailed`: a failure fewer when the file carries the failed status; the live download waits again. */
    method RetryFailed(file: FileDownload)
      requires Valid()
      modifies this
      ensures Valid() && successMap == old(successMap) && observed == old(observed)
      ensures failCount == if file.status == Failed then old(failCount) - 1 else old(failCount)
      ensures queueMap == Restatus(old(queueMap), file.location, NeedDownload, file.path, file.name)
    {
      if file.status == Failed {
        SetFailCount(failCount - 1);
      }
      KeyedRestatus(queueMap, file.location, NeedDownload, file.path, file.name);
      queueMap := Restatus(queueMap, file.location, NeedDownload, file.path, file.name);
    }

    /** `retryAllFailed`. */
    method RetryAllFailed()
      requires Valid()
      modifies this
      ensures Valid() && successMap == old(successMap) && observed == old(observed)
      ensures queueMap == MapValues(old(queueMap), RetryStep) && failCount == 0
    {
      StepsKeepLocation("");
      ForEach(RetryStep);
      SetFailCount(0);
    }

    /** `dismissAllFailed`. */
    method DismissAllFailed()
      requires Valid()
      modifies this
      ensures Valid() && successMap == old(successMap) && observed == old(observed)
      ensures queueMap == MapValues(old(queueMap), DropFailed) && failCount == 0
    {
      StepsKeepLocation("");
      ForEach(DropFailed);
      SetFailCount(0);
    }

    /** `dismissAllNeedDownload`. */
    method DismissAllNeedDownload()
      requires Valid()
      modifies this
      ensures Valid() && successMap == old(successMap) && failCount == old(failCount) && observed == old(observed)
      ensures queueMap == MapValues(old(queueMap), DropNeedDownload)
    {
      StepsKeepLocation("");
      ForEach(DropNeedDownload);
    }

    /** `dismissAllInProgress`. */
    method DismissAllInProgress()
      requires Valid()
      modifies this
      ensures Valid() && successMap == old(successMap) && failCount == old(failCount) && observed == old(observed)
      ensures queueMap == MapValues(old(queueMap), DropInProgress)
    {
      StepsKeepLocation("");
      ForEach(DropInProgress);
    }

    /** `dismissFile`: a failure fewer when the file carries the failed status; the download at its location is cancelled. */
    method DismissFile(file: FileDownload)
      requires Valid()
      modifies this
      ensures Valid() && successMap == old(successMap) && observed == old(observed)
      ensures failCount == if file.status == Failed then old(failCount) - 1 else old(failCount)
      ensures queueMap == MapValues(old(queueMap), CancelAt(file.location))
    {
      if file.status == Failed {
        SetFailCount(failCount - 1);
      }
      StepsKeepLocation(file.location);
      ForEach(CancelAt(file.location));
    }

    /** `removeFileFromQueue`: a failure fewer when the file carries the failed status; the download at its location is deleted. */
    method RemoveFileFromQueue(file: FileDownload)
      requires Valid()
      modifies this
      ensures Valid() && successMap == old(successMap) && observed == old(observed)
      ensures failCount == if file.status == Failed then old(failCount) - 1 else old(failCount)
      ensures queueMap == MapValues(old(queueMap), DropAt(file.location))
    {
      if file.status == Failed {
        SetFailCount(failCount - 1);
      }
      StepsKeepLocation(file.location);
      ForEach(DropAt(file.location));
    }

    /** `resetLoadingErrorFailAll`: every download fails, and the counter is set to the queue's size. */
    method ResetLoadingErrorFailAll()
      requires Valid()
      modifies this
      ensures Valid() && observed == None && successMap == []
      ensures queueMap == MapValues(old(queueMap), FailAll)
      ensures failCount == |queueMap| == CountWhere(queueMap, IsFailed)
    {
      SetObservedFileDownload(None);
      StepsKeepLocation("");
      FailAllCounts(queueMap);
      ForEach(FailAll);
      SetFailCount(|queueMap|);
      ClearSuccessful();
    }

    /** `resetLoadingError`. */
    method ResetLoadingError()
      requires Valid()
      modifies this
      ensures Valid() && observed == None && successMap == [] && failCount == old(failCount)
      ensures queueMap == MapValues(old(queueMap), RequeueInProgress)
    {
      SetObservedFileDownload(None);
      StepsKeepLocation("");
      ForEach(RequeueInProgress);
      ClearSuccessful();
    }

    /** `reset`: both maps are emptied and the counter zeroed; the observed reference is left to dangle. */
    method Reset()
      modifies this
      ensures Valid() && queueMap == [] && successMap == [] && failCount == 0
      ensures observed == old(observed) && Resolved() == None
    {
      queueMap := [];
      successMap := [];
      failCount := 0;
    }

    /**
     * `queueMap.forEach`, with a body that deletes the current download when
     * `g` gives `None` and updates it in place otherwise.
     */
    method ForEach(g: FileDownload -> Option<FileDownload>)
      requires Valid() && KeepsId(g, LocationOf)
      modifies this
      ensures Valid() && queueMap == MapValues(old(queueMap), g)
      ensures successMap == old(successMap) && failCount == old(failCount) && observed == old(observed)
    {
      var q0 := queueMap;
      for i := 0 to |q0|
        invariant UniqueKeys(q0)
        invariant queueMap == MapValues(q0[..i], g) + q0[i..]
        invariant successMap == old(successMap) && failCount == old(failCount) && observed == old(observed)
      {
        MapValuesStep(q0, i, g);
        var next := g(q0[i].1);
        if next.None? {
          queueMap := Remove(queueMap, q0[i].0);
        } else {
          queueMap := Put(queueMap, q0[i].0, next.value);
        }
      }
      assert q0[..|q0|] == q0;
      KeyedByMapValues(q0, g, LocationOf);
    }
  }
}
