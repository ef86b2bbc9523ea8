/**
 * The upload queue of the mobile app (`QueueModel`): files waiting to be
 * uploaded, keyed by path, the files already uploaded, and the file the
 * uploader is working on.
 */
module UploadQueue {
  import opened Wrappers
  import opened OrderedMaps

  datatype UploadStatus = NeedUpload | InProgress | Success | Failed | Cancelled

  /**
   * `FileUploadModel`.  `path` is its identifier, so a map of uploads holds
   * each one under its path.  `size` and `progress` are JavaScript numbers,
   * kept as integers here.
   */
  datatype FileUpload = FileUpload(
    name: string,
    path: string,
    size: int,
    mimeType: Option<string>,
    progress: int,
    status: UploadStatus,
    destDir: Option<string>,
    isAutoSync: bool)

  type Uploads = Entries<string, FileUpload>

  /** `updateStatus(status)`, with `progress` at its default of 0. */
  function UpdateStatus(f: FileUpload, status: UploadStatus): FileUpload
  {
    f.(status := status, progress := 0)
  }

  predicate IsFailed(f: FileUpload) { f.status == Failed }
  predicate IsNeedUpload(f: FileUpload) { f.status == NeedUpload }
  predicate IsInProgress(f: FileUpload) { f.status == InProgress }

  /** An upload's identifier. */
  function PathOf(f: FileUpload): string
  {
    f.path
  }

  /** The live upload under `key` after `updateStatus(status)`; no change when there is none. */
  function Restatus(m: Uploads, key: string, status: UploadStatus): (r: Uploads)
    ensures Absent(m, key) ==> r == m
    ensures forall k :: Get(r, k) ==
              if k == key && Get(m, k).Some? then Some(UpdateStatus(Get(m, k).value, status)) else Get(m, k)
  {
    match Get(m, key)
    case None => m
    case Some(f) =>
      var r := Put(m, key, UpdateStatus(f, status));
      assert forall k :: Get(r, k) == if k == key then Some(UpdateStatus(f, status)) else Get(m, k) by {
        forall k ensures Get(r, k) == if k == key then Some(UpdateStatus(f, status)) else Get(m, k) {
          GetPut(m, key, UpdateStatus(f, status), k);
        }
      }
      r
  }

  lemma KeyedRestatus(m: Uploads, key: string, status: UploadStatus)
    requires KeyedBy(m, PathOf)
    ensures KeyedBy(Restatus(m, key, status), PathOf)
  {
    if Get(m, key).Some? {
      KeyedByGet(m, key, PathOf);
      KeyedByPut(m, UpdateStatus(Get(m, key).value, status), PathOf);
    }
  }

  // ---------------------------------------------------------------- the per-entry steps of the forEach actions

  /** `dismissAllFailed`: a failed upload is deleted. */
  function DropFailed(f: FileUpload): Option<FileUpload>
  {
    if f.status == Failed then None else Some(f)
  }

  /** `dismissAllNeedUpload`: a waiting upload is marked failed. */
  function FailNeedUpload(f: FileUpload): Option<FileUpload>
  {
    if f.status == NeedUpload then Some(UpdateStatus(f, Failed)) else Some(f)
  }

  /** `resetLoadingErrorFailAll`: every upload is marked failed. */
  function FailAll(f: FileUpload): Option<FileUpload>
  {
    Some(UpdateStatus(f, Failed))
  }

  /** `resetLoadingError`: an upload in progress goes back to waiting. */
  function RequeueInProgress(f: FileUpload): Option<FileUpload>
  {
    if f.status == InProgress then Some(UpdateStatus(f, NeedUpload)) else Some(f)
  }

  /**
   * `retryAllFailed`: a failed upload whose file is still on disk goes back
   * to waiting; one whose file is gone is deleted.
   */
  function Retry(onDisk: string -> bool): FileUpload -> Option<FileUpload>
  {
    (f: FileUpload) => RetryStep(onDisk, f)
  }

  function RetryStep(onDisk: string -> bool, f: FileUpload): Option<FileUpload>
  {
    if f.status != Failed then Some(f)
    else if onDisk(f.path) then Some(UpdateStatus(f, NeedUpload))
    else None
  }

  lemma StepsKeepPath(onDisk: string -> bool)
    ensures KeepsId(DropFailed, PathOf) && KeepsId(FailNeedUpload, PathOf) && KeepsId(FailAll, PathOf)
    ensures KeepsId(RequeueInProgress, PathOf) && KeepsId(Retry(onDisk), PathOf)
  {
    forall f: FileUpload
      ensures Retry(onDisk)(f).Some? ==> Retry(onDisk)(f).value.path == f.path
    {
    }
  }

  // ---------------------------------------------------------------- what the actions leave

  /** After `dismissAllFailed` no upload has failed, and exactly the failed ones are gone. */
  lemma {:induction false} DismissAllFailedCounts(m: Uploads)
    ensures CountWhere(MapValues(m, DropFailed), IsFailed) == 0
    ensures |MapValues(m, DropFailed)| == |m| - CountWhere(m, IsFailed)
  {
    if m != [] {
      DismissAllFailedCounts(m[1..]);
      CountMapValuesCons(m, DropFailed, IsFailed);
    }
  }

  /** After `dismissAllNeedUpload` nothing waits, and the waiting uploads have joined the failed ones. */
  lemma {:induction false} DismissAllNeedUploadCounts(m: Uploads)
    ensures |MapValues(m, FailNeedUpload)| == |m|
    ensures CountWhere(MapValues(m, FailNeedUpload), IsNeedUpload) == 0
    ensures CountWhere(MapValues(m, FailNeedUpload), IsFailed) ==
              CountWhere(m, IsFailed) + CountWhere(m, IsNeedUpload)
  {
    if m != [] {
      DismissAllNeedUploadCounts(m[1..]);
      CountMapValuesCons(m, FailNeedUpload, IsNeedUpload);
      CountMapValuesCons(m, FailNeedUpload, IsFailed);
    }
  }

  /** After `resetLoadingErrorFailAll` every upload has failed. */
  lemma {:induction false} FailAllCounts(m: Uploads)
    ensures |MapValues(m, FailAll)| == |m|
    ensures CountWhere(MapValues(m, FailAll), IsFailed) == |m|
  {
    if m != [] {
      FailAllCounts(m[1..]);
      CountMapValuesCons(m, FailAll, IsFailed);
    }
  }

  /** After `resetLoadingError` nothing is in progress; those uploads wait again. */
  lemma {:induction false} RequeueCounts(m: Uploads)
    ensures |MapValues(m, RequeueInProgress)| == |m|
    ensures CountWhere(MapValues(m, RequeueInProgress), IsInProgress) == 0
    ensures CountWhere(MapValues(m, RequeueInProgress), IsNeedUpload) ==
              CountWhere(m, IsNeedUpload) + CountWhere(m, IsInProgress)
    ensures CountWhere(MapValues(m, RequeueInProgress), IsFailed) == CountWhere(m, IsFailed)
  {
    if m != [] {
      RequeueCounts(m[1..]);
      CountMapValuesCons(m, RequeueInProgress, IsInProgress);
      CountMapValuesCons(m, RequeueInProgress, IsNeedUpload);
      CountMapValuesCons(m, RequeueInProgress, IsFailed);
    }
  }

  /** After `retryAllFailed` no upload has failed, and only failed ones can be gone. */
  lemma {:induction false} RetryCounts(m: Uploads, onDisk: string -> bool)
    ensures CountWhere(MapValues(m, Retry(onDisk)), IsFailed) == 0
    ensures |m| - CountWhere(m, IsFailed) <= |MapValues(m, Retry(onDisk))| <= |m|
  {
    if m != [] {
      RetryCounts(m[1..], onDisk);
      CountMapValuesCons(m, Retry(onDisk), IsFailed);
      assert Retry(onDisk)(m[0].1) == RetryStep(onDisk, m[0].1);
    }
  }

  // ---------------------------------------------------------------- getStatus

  /** What `getStatus` reports. */
  datatype QueueStatus = ReportFailed | ReportUploading | ReportNotFound

  class Queue {
    var queueMap: Uploads
    var successMap: Uploads
    /** The path `_observedFile` refers to; the reference may dangle. */
    var observed: Option<string>

    ghost predicate Valid()
      reads this
    {
      KeyedBy(queueMap, PathOf) && KeyedBy(successMap, PathOf)
    }

    constructor()
      ensures Valid() && queueMap == [] && successMap == [] && observed == None
    {
      queueMap := [];
      successMap := [];
      observed := None;
    }

    /** What `_observedFile` resolves to: the upload under its path, if the queue still holds one. */
    function Resolved(): (r: Option<FileUpload>)
      reads this
      ensures r.Some? ==> observed.Some? && (observed.value, r.value) in queueMap
      ensures r.None? ==> observed.None? || Absent(queueMap, observed.value)
    {
      if observed.None? then None else Get(queueMap, observed.value)
    }

    /** The `observedFile` view: a reference that no longer resolves is cleared. */
    method ObservedFile() returns (f: Option<FileUpload>)
      modifies this
      ensures f == old(Resolved())
      ensures observed == if f.None? then None else old(observed)
      ensures queueMap == old(queueMap) && successMap == old(successMap)
    {
      if observed.None? {
        return None;
      }
      f := Get(queueMap, observed.value);
      if f.None? {
        observed := None;
      }
    }

    /** The `failCount` view: the loop over the queue counting failed uploads. */
    method FailCount() returns (count: nat)
      ensures count == CountWhere(queueMap, IsFailed)
    {
      count := 0;
      for i := 0 to |queueMap|
        invariant count == CountWhere(queueMap[..i], IsFailed)
      {
        assert queueMap[..i + 1] == queueMap[..i] + [queueMap[i]];
        CountWhereSnoc(queueMap[..i], queueMap[i], IsFailed);
        if queueMap[i].1.status == Failed {
          count := count + 1;
        }
      }
      assert queueMap[..|queueMap|] == queueMap;
    }

    /** `set(key, value)`: MST requires the key to be the upload's path. */
    method Set(key: string, file: FileUpload)
      requires Valid() && key == file.path
      modifies this
      ensures Valid() && queueMap == Put(old(queueMap), key, file)
      ensures successMap == old(successMap) && observed == old(observed)
    {
      KeyedByPut(queueMap, file, PathOf);
      queueMap := Put(queueMap, key, file);
    }

    /** `delete(key)`. */
    method Delete(key: string)
      requires Valid()
      modifies this
      ensures Valid() && queueMap == Remove(old(queueMap), key)
      ensures successMap == old(successMap) && observed == old(observed)
    {
      KeyedByRemove(queueMap, key, PathOf);
      queueMap := Remove(queueMap, key);
    }

    /** `merge(items)`: each upload is set under its path, in order. */
    method Merge(items: seq<FileUpload>)
      requires Valid()
      modifies this
      ensures Valid() && successMap == old(successMap) && observed == old(observed)
      ensures forall f :: f in items ==> Get(queueMap, f.path).Some?
      ensures forall k :: (forall f :: f in items ==> f.path != k) ==> Get(queueMap, k) == Get(old(queueMap), k)
      ensures queueMap == PutAll(old(queueMap), items, PathOf)
      ensures forall k :: LastWithId(items, PathOf, k).Some? ==> Get(queueMap, k) == LastWithId(items, PathOf, k)
    {
      for i := 0 to |items|
        invariant Valid() && successMap == old(successMap) && observed == old(observed)
        invariant queueMap == PutAll(old(queueMap), items[..i], PathOf)
      {
        Set(items[i].path, items[i]);
        assert items[..i + 1] == items[..i] + [items[i]];
        assert items[..i + 1][..i] == items[..i];
      }
      assert items[..|items|] == items;
      forall k ensures Get(queueMap, k) == if LastWithId(items, PathOf, k).Some? then LastWithId(items, PathOf, k) else Get(old(queueMap), k) {
        GetPutAll(old(queueMap), items, PathOf, k);
      }
    }

    /** `setObservedFileUpload`. */
    method SetObservedFileUpload(path: Option<string>)
      modifies this
      ensures observed == path && queueMap == old(queueMap) && successMap == old(successMap)
    {
      observed := path;
    }

    /** `clearSuccessful`. */
    method ClearSuccessful()
      modifies this
      ensures successMap == [] && queueMap == old(queueMap) && observed == old(observed)
    {
      successMap := [];
    }

    /**
     * `updateFileStatus`.  Success moves the upload under `file.path` from the
     * queue to the success map, marked successful; with no such upload the
     * action throws (after the observed file is cleared).  Failure only
     * clears the observed file.  In progress makes `file` the observed file.
     */
    method UpdateFileStatus(file: FileUpload, status: UploadStatus) returns (threw: bool)
      requires Valid()
      modifies this
      ensures Valid()
      ensures threw <==> status == Success && Absent(old(queueMap), file.path)
      ensures status == Success && !threw ==>
                observed == None &&
                queueMap == Remove(old(queueMap), file.path) &&
                successMap == Put(old(successMap), file.path, Get(old(queueMap), file.path).value.(status := Success))
      ensures (status == Failed || threw) ==>
                observed == None && queueMap == old(queueMap) && successMap == old(successMap)
      ensures status == InProgress ==>
                observed == Some(file.path) && queueMap == old(queueMap) && successMap == old(successMap)
      ensures (status == NeedUpload || status == Cancelled) ==>
                observed == old(observed) && queueMap == old(queueMap) && successMap == old(successMap)
    {
      threw := false;
      if status == Success {
        SetObservedFileUpload(None);
        var node := Get(queueMap, file.path);
        if node.None? {
          return true;
        }
        KeyedByGet(queueMap, file.path, PathOf);
        var snapshot := node.value;
        KeyedByRemove(queueMap, snapshot.path, PathOf);
        queueMap := Remove(queueMap, snapshot.path);
        KeyedByPut(successMap, snapshot.(status := Success), PathOf);
        successMap := Put(successMap, snapshot.path, snapshot.(status := Success));
      }
      if status == Failed {
        SetObservedFileUpload(None);
      }
      if status == InProgress {
        var current := ObservedFile();
        if current.Some? && file.path == current.value.path {
          return;
        }
        SetObservedFileUpload(Some(file.path));
      }
    }

    /** `getNextToUpload`: the first waiting upload in queue order. */
    method GetNextToUpload() returns (f: Option<FileUpload>)
      ensures f == FirstWhere(queueMap, IsNeedUpload)
    {
      for i := 0 to |queueMap|
        invariant forall j :: 0 <= j < i ==> !IsNeedUpload(queueMap[j].1)
      {
        if queueMap[i].1.status == NeedUpload {
          FirstWhereAt(queueMap, IsNeedUpload, i);
          return Some(queueMap[i].1);
        }
      }
      return None;
    }

    /** `isAlreadyInQueue`. */
    function IsAlreadyInQueue(file: FileUpload): (r: bool)
      reads this
      ensures r <==> !Absent(queueMap, file.path)
    {
      Get(queueMap, file.path).Some?
    }

    /** `getStatus`: whether the file's path is queued, and, going by the status it carries, whether it failed. */
    function GetStatus(file: FileUpload): (r: QueueStatus)
      reads this
      ensures r == ReportNotFound <==> Absent(queueMap, file.path)
      ensures r == ReportFailed <==> !Absent(queueMap, file.path) && file.status == Failed
      ensures r == ReportUploading <==> !Absent(queueMap, file.path) && file.status != Failed
    {
      if IsAlreadyInQueue(file) then
        if file.status == Failed then ReportFailed else ReportUploading
      else ReportNotFound
    }

    /**
     * `retryFailed`: the file still on disk (as the file system reports)
     * waits again; otherwise it is deleted from the queue.
     */
    method RetryFailed(file: FileUpload, onDisk: bool)
      requires Valid()
      modifies this
      ensures Valid() && successMap == old(successMap) && observed == old(observed)
      ensures onDisk ==> queueMap == Restatus(old(queueMap), file.path, NeedUpload)
      ensures !onDisk ==> queueMap == Remove(old(queueMap), file.path)
    {
      if onDisk {
        KeyedRestatus(queueMap, file.path, NeedUpload);
        queueMap := Restatus(queueMap, file.path, NeedUpload);
      } else {
        Delete(file.path);
      }
    }

    /** `retryAllFailed`, with the file system's answer for each path given. */
    method RetryAllFailed(onDisk: string -> bool)
      requires Valid()
      modifies this
      ensures Valid() && successMap == old(successMap) && observed == old(observed)
      ensures queueMap == MapValues(old(queueMap), Retry(onDisk))
    {
      StepsKeepPath(onDisk);
      ForEach(Retry(onDisk));
    }

    /** `dismissAllFailed`. */
    method DismissAllFailed()
      requires Valid()
      modifies this
      ensures Valid() && successMap == old(successMap) && observed == old(observed)
      ensures queueMap == MapValues(old(queueMap), DropFailed)
    {
      StepsKeepPath(_ => true);
      ForEach(DropFailed);
    }

    /** `dismissFailedFile`: deletes the file's path only when the file carries the failed status. */
    method DismissFailedFile(file: FileUpload)
      requires Valid()
      modifies this
      ensures Valid() && successMap == old(successMap) && observed == old(observed)
      ensures queueMap == if file.status == Failed then Remove(old(queueMap), file.path) else old(queueMap)
    {
      if file.status == Failed {
        Delete(file.path);
      }
    }

    /** `dismissAllNeedUpload`. */
    method DismissAllNeedUpload()
      requires Valid()
      modifies this
      ensures Valid() && successMap == old(successMap) && observed == old(observed)
      ensures queueMap == MapValues(old(queueMap), FailNeedUpload)
    {
      StepsKeepPath(_ => true);
      ForEach(FailNeedUpload);
    }

    /** `dismissFile`: a failed file is deleted, any other is marked failed. */
    method DismissFile(file: FileUpload)
      requires Valid()
      modifies this
      ensures Valid() && successMap == old(successMap) && observed == old(observed)
      ensures file.status == Failed ==> queueMap == Remove(old(queueMap), file.path)
      ensures file.status != Failed ==> queueMap == Restatus(old(queueMap), file.path, Failed)
    {
      if file.status == Failed {
        Delete(file.path);
      } else {
        KeyedRestatus(queueMap, file.path, Failed);
        queueMap := Restatus(queueMap, file.path, Failed);
      }
    }

    /**
     * `dismissInProgress`: the observed upload is marked failed and no longer
     * observed.  With no observed upload, reading its path throws.
     */
    method DismissInProgress() returns (threw: bool)
      requires Valid()
      modifies this
      ensures Valid() && successMap == old(successMap) && observed == None
      ensures threw <==> old(Resolved()).None?
      ensures threw ==> queueMap == old(queueMap)
      ensures !threw ==> queueMap == Restatus(old(queueMap), old(Resolved()).value.path, Failed)
    {
      var current := ObservedFile();
      if current.None? {
        return true;
      }
      KeyedRestatus(queueMap, current.value.path, Failed);
      queueMap := Restatus(queueMap, current.value.path, Failed);
      SetObservedFileUpload(None);
      return false;
    }

    /** `resetLoadingErrorFailAll`. */
    method ResetLoadingErrorFailAll()
      requires Valid()
      modifies this
      ensures Valid() && observed == None && successMap == []
      ensures queueMap == MapValues(old(queueMap), FailAll)
    {
      SetObservedFileUpload(None);
      StepsKeepPath(_ => true);
      ForEach(FailAll);
      ClearSuccessful();
    }

    /** `resetLoadingError`. */
    method ResetLoadingError()
      requires Valid()
      modifies this
      ensures Valid() && observed == None && successMap == []
      ensures queueMap == MapValues(old(queueMap), RequeueInProgress)
    {
      SetObservedFileUpload(None);
      StepsKeepPath(_ => true);
      ForEach(RequeueInProgress);
      ClearSuccessful();
    }

    /** `reset`. */
    method Reset()
      modifies this
      ensures Valid() && observed == None && queueMap == [] && successMap == []
    {
      observed := None;
      queueMap := [];
      successMap := [];
    }

    /**
     * `queueMap.forEach`, with a body that deletes the current upload when
     * `g` gives `None` and updates it in place otherwise.
     */
    method ForEach(g: FileUpload -> Option<FileUpload>)
      requires Valid() && KeepsId(g, PathOf)
      modifies this
      ensures Valid() && queueMap == MapValues(old(queueMap), g)
      ensures successMap == old(successMap) && observed == old(observed)
    {
      var q0 := queueMap;
      for i := 0 to |q0|
        invariant UniqueKeys(q0)
        invariant queueMap == MapValues(q0[..i], g) + q0[i..]
        invariant successMap == old(successMap) && observed == old(observed)
      {
        var (key, f) := q0[i];
        MapValuesStep(q0, i, g);
        match g(f) {
          case None =>
            queueMap := Remove(queueMap, key);
          case Some(w) =>
            queueMap := Put(queueMap, key, w);
        }
      }
      assert q0[..|q0|] == q0;
      KeyedByMapValues(q0, g, PathOf);
    }
  }
}
