/**
 * The uploader store (`UploaderStoreModel`): the user's upload queue, the
 * automatic-sync upload queue with the count of files the device still has
 * to sync, and the "all backed up" banner flag.
 */
module UploaderStore {
  import opened Wrappers
  import opened OrderedMaps
  import opened UploadQueue

  /** No more values pass a filter than there are entries. */
  lemma {:induction false} CountWhereAtMost<K, V>(m: Entries<K, V>, p: V -> bool)
    ensures CountWhere(m, p) <= |m|
  {
    if m != [] {
      CountWhereAtMost(m[1..], p);
    }
  }

  /**
   * The automatic-sync `dismissFile` as written: the queue is handed
   * `getSnapshot(file)`, a plain object without the model's actions.  A failed
   * upload is deleted by its path; for any other the queue calls
   * `updateStatus` on the snapshot, which is not a function, so the call
   * throws and the queue keeps the upload as it was.  The result is the new
   * queue and whether the call threw.
   */
  function AutoDismissAsWritten(m: Uploads, file: FileUpload): (r: (Uploads, bool))
    ensures r.1 <==> file.status != Failed
    ensures r.1 ==> r.0 == m
    ensures !r.1 ==> r.0 == Remove(m, file.path)
  {
    if file.status == Failed then (Remove(m, file.path), false) else (m, true)
  }

  /**
   * A waiting automatic-sync upload that the user dismisses stays waiting as
   * written, where the user queue's `dismissFile` marks it failed.
   */
  lemma AutoDismissAsWrittenKeepsWaiting()
    ensures var file := FileUpload("a.jpg", "/a.jpg", 1, None, 0, NeedUpload, Some("/"), true);
            var m: Uploads := [(file.path, file)];
            AutoDismissAsWritten(m, file) == (m, true) &&
            Get(m, file.path).value.status == NeedUpload &&
            Get(Restatus(m, file.path, Failed), file.path).value.status == Failed
  {
  }

  class Uploader {
    /** `userSync.queue`. */
    var user: Queue
    /** `autoSync.queue`. */
    var auto: Queue
    /** `autoSync.totalCount`: the files the device reports as still to sync (`shadowSize`). */
    var autoTotal: nat
    var dismissAllBackedUp: bool

    ghost predicate Valid()
      reads this, user, auto
    {
      user != auto && user.Valid() && auto.Valid()
    }

    constructor()
      ensures Valid() && fresh(user) && fresh(auto)
      ensures user.queueMap == [] && auto.queueMap == [] && autoTotal == 0 && dismissAllBackedUp
    {
      user := new Queue();
      auto := new Queue();
      autoTotal := 0;
      dismissAllBackedUp := true;
    }

    /** `totalCount`: the user queue's size plus the automatic sync's shadow size. */
    function TotalCount(): (r: nat)
      reads this, user
      ensures r == 0 <==> user.queueMap == [] && autoTotal == 0
    {
      |user.queueMap| + autoTotal
    }

    /** `uploadFailCount`: the failed uploads of both queues. */
    function UploadFailCount(): (r: nat)
      reads this, user, auto
      ensures r <= |user.queueMap| + |auto.queueMap|
      ensures r == 0 <==> (forall i :: 0 <= i < |user.queueMap| ==> user.queueMap[i].1.status != Failed) &&
                          (forall i :: 0 <= i < |auto.queueMap| ==> auto.queueMap[i].1.status != Failed)
    {
      CountWhereAtMost(user.queueMap, IsFailed);
      CountWhereAtMost(auto.queueMap, IsFailed);
      CountWhereZero(user.queueMap, IsFailed);
      CountWhereZero(auto.queueMap, IsFailed);
      CountWhere(user.queueMap, IsFailed) + CountWhere(auto.queueMap, IsFailed)
    }

    /**
     * `currentlyUploadingCount`: total less failed.  The user queue's share is
     * never negative; only the automatic sync's shadow size, counted apart
     * from its queue, can take the difference below zero.
     */
    function CurrentlyUploadingCount(): (r: int)
      reads this, user, auto
      ensures r >= autoTotal - CountWhere(auto.queueMap, IsFailed)
      ensures r == (|user.queueMap| - CountWhere(user.queueMap, IsFailed)) + (autoTotal - CountWhere(auto.queueMap, IsFailed))
    {
      CountWhereAtMost(user.queueMap, IsFailed);
      TotalCount() - UploadFailCount()
    }

    /** `uploadSuccessCount`. */
    function UploadSuccessCount(): (r: nat)
      reads this, user, auto
      ensures r == 0 <==> user.successMap == [] && auto.successMap == []
    {
      |user.successMap| + |auto.successMap|
    }

    /** `isAllBackedUp`: the banner is not dismissed and nothing is left to upload. */
    function IsAllBackedUp(): (r: bool)
      reads this, user
      ensures r <==> !dismissAllBackedUp && user.queueMap == [] && autoTotal == 0
    {
      !dismissAllBackedUp && TotalCount() == 0
    }

    /** What `observedFile` resolves to: the user queue's observed upload, else the automatic sync's. */
    function Observed(): (r: Option<FileUpload>)
      reads this, user, auto
      ensures r.Some? <==> user.Resolved().Some? || auto.Resolved().Some?
    {
      if user.Resolved().Some? then user.Resolved() else auto.Resolved()
    }

    /** The upload `getNextFileToUpload` picks: the user queue's first waiting upload, else the automatic sync's. */
    function NextFile(): (r: Option<FileUpload>)
      reads this, user, auto
      ensures r.Some? ==> r.value.status == NeedUpload
      ensures r.None? <==> (forall i :: 0 <= i < |user.queueMap| ==> user.queueMap[i].1.status != NeedUpload) &&
                           (forall i :: 0 <= i < |auto.queueMap| ==> auto.queueMap[i].1.status != NeedUpload)
      ensures FirstWhere(user.queueMap, IsNeedUpload).Some? ==> r == FirstWhere(user.queueMap, IsNeedUpload)
    {
      var mine := FirstWhere(user.queueMap, IsNeedUpload);
      if mine.Some? then mine else FirstWhere(auto.queueMap, IsNeedUpload)
    }

    /** The `observedFile` view, which clears a dangling reference in each queue it reads. */
    method ObservedFile() returns (f: Option<FileUpload>)
      requires Valid()
      modifies user, auto
      ensures Valid() && f == old(Observed())
      ensures user.queueMap == old(user.queueMap) && user.successMap == old(user.successMap)
      ensures auto.queueMap == old(auto.queueMap) && auto.successMap == old(auto.successMap)
      ensures user.observed == if old(user.Resolved()).None? then None else old(user.observed)
      ensures auto.observed == if f.None? then None else old(auto.observed)
    {
      f := user.ObservedFile();
      if f.None? {
        f := auto.ObservedFile();
      }
    }

    /** `setDismissAllBackedUp(clear, fromUserIntent)`; dismissing clears both success maps. */
    method SetDismissAllBackedUp(clear: bool)
      requires Valid()
      modifies this, user, auto
      ensures Valid() && dismissAllBackedUp == clear && user == old(user) && auto == old(auto)
      ensures autoTotal == old(autoTotal)
      ensures user.queueMap == old(user.queueMap) && auto.queueMap == old(auto.queueMap)
      ensures user.observed == old(user.observed) && auto.observed == old(auto.observed)
      ensures user.successMap == (if clear then [] else old(user.successMap))
      ensures auto.successMap == (if clear then [] else old(auto.successMap))
    {
      dismissAllBackedUp := clear;
      if clear {
        user.ClearSuccessful();
        auto.ClearSuccessful();
      }
    }

    /** `getNextFileToUpload`: finding an upload takes the banner's dismissal back. */
    method GetNextFileToUpload() returns (f: Option<FileUpload>)
      requires Valid()
      modifies this
      ensures Valid() && f == NextFile() && user == old(user) && auto == old(auto)
      ensures autoTotal == old(autoTotal)
      ensures dismissAllBackedUp == if f.Some? then false else old(dismissAllBackedUp)
    {
      f := user.GetNextToUpload();
      if f.None? {
        f := auto.GetNextToUpload();
      }
      if f.Some? {
        dismissAllBackedUp := false;
      }
    }

    /** `updateFileStatus`: the queue the file's automatic-sync flag names does the work. */
    method UpdateFileStatus(file: FileUpload, status: UploadStatus) returns (threw: bool)
      requires Valid()
      modifies user, auto
      ensures Valid()
      ensures file.isAutoSync ==> unchanged(user)
      ensures !file.isAutoSync ==> unchanged(auto)
      ensures status == InProgress ==>
                user.queueMap == old(user.queueMap) && auto.queueMap == old(auto.queueMap) &&
                user.successMap == old(user.successMap) && auto.successMap == old(auto.successMap)
      ensures status == InProgress ==> (if file.isAutoSync then auto.observed else user.observed) == Some(file.path)
      ensures status == InProgress ==> !threw
      ensures var q := if file.isAutoSync then auto else user;
              threw <==> status == Success && Absent(old(q.queueMap), file.path)
      ensures var q := if file.isAutoSync then auto else user;
              status == Success && !threw ==>
                q.observed == None &&
                q.queueMap == Remove(old(q.queueMap), file.path) &&
                q.successMap == Put(old(q.successMap), file.path, Get(old(q.queueMap), file.path).value.(status := Success))
      ensures var q := if file.isAutoSync then auto else user;
              (status == Failed || threw) ==>
                q.observed == None && q.queueMap == old(q.queueMap) && q.successMap == old(q.successMap)
      ensures var q := if file.isAutoSync then auto else user;
              (status == NeedUpload || status == Cancelled) ==>
                q.observed == old(q.observed) && q.queueMap == old(q.queueMap) && q.successMap == old(q.successMap)
    {
      if file.isAutoSync {
        threw := auto.UpdateFileStatus(file, status);
      } else {
        threw := user.UpdateFileStatus(file, status);
      }
    }

    /**
     * `startUploading`: nothing while a file is observed; otherwise the next
     * upload is marked in progress in its queue and handed to the uploader,
     * which is returned here.
     */
    method StartUploading() returns (started: Option<FileUpload>)
      requires Valid()
      modifies this, user, auto
      ensures Valid() && user == old(user) && auto == old(auto) && autoTotal == old(autoTotal)
      ensures user.queueMap == old(user.queueMap) && auto.queueMap == old(auto.queueMap)
      ensures user.successMap == old(user.successMap) && auto.successMap == old(auto.successMap)
      ensures old(Observed()).Some? ==> started.None?
      ensures old(Observed()).None? ==> started == old(NextFile())
      ensures started.Some? ==>
                !dismissAllBackedUp && (if started.value.isAutoSync then auto.observed else user.observed) == Some(started.value.path)
      ensures started.None? ==> dismissAllBackedUp == old(dismissAllBackedUp)
    {
      var current := ObservedFile();
      if current.Some? {
        return None;
      }
      started := GetNextFileToUpload();
      if started.None? {
        return;
      }
      var _ := UpdateFileStatus(started.value, InProgress);
    }

    /** `dismissAllFailed`. */
    method DismissAllFailed()
      requires Valid()
      modifies user, auto
      ensures Valid()
      ensures user.queueMap == MapValues(old(user.queueMap), DropFailed)
      ensures auto.queueMap == MapValues(old(auto.queueMap), DropFailed)
      ensures user.successMap == old(user.successMap) && auto.successMap == old(auto.successMap)
    {
      user.DismissAllFailed();
      auto.DismissAllFailed();
    }

    /** `retryAllFailed`, with the file system's answer for each path given; then `startUploading`. */
    method RetryAllFailed(onDisk: string -> bool) returns (started: Option<FileUpload>)
      requires Valid()
      modifies this, user, auto
      ensures Valid()
      ensures user.queueMap == MapValues(old(user.queueMap), Retry(onDisk))
      ensures auto.queueMap == MapValues(old(auto.queueMap), Retry(onDisk))
    {
      user.RetryAllFailed(onDisk);
      auto.RetryAllFailed(onDisk);
      started := StartUploading();
    }

    /** `retryFailed`: the file's own queue retries it; then `startUploading`. */
    method RetryFailed(file: FileUpload, onDisk: bool) returns (started: Option<FileUpload>)
      requires Valid()
      modifies this, user, auto
      ensures Valid()
      ensures file.isAutoSync ==>
                user.queueMap == old(user.queueMap) &&
                auto.queueMap == (if onDisk then Restatus(old(auto.queueMap), file.path, NeedUpload) else Remove(old(auto.queueMap), file.path))
      ensures !file.isAutoSync ==>
                auto.queueMap == old(auto.queueMap) &&
                user.queueMap == (if onDisk then Restatus(old(user.queueMap), file.path, NeedUpload) else Remove(old(user.queueMap), file.path))
    {
      if file.isAutoSync {
        auto.RetryFailed(file, onDisk);
      } else {
        user.RetryFailed(file, onDisk);
      }
      started := StartUploading();
    }

    /** `clearSuccessful`. */
    method ClearSuccessful()
      requires Valid()
      modifies user, auto
      ensures Valid() && user.successMap == [] && auto.successMap == []
      ensures user.queueMap == old(user.queueMap) && auto.queueMap == old(auto.queueMap)
    {
      user.ClearSuccessful();
      auto.ClearSuccessful();
    }

    /** `dismissAllNeedUpload`. */
    method DismissAllNeedUpload()
      requires Valid()
      modifies user, auto
      ensures Valid()
      ensures user.queueMap == MapValues(old(user.queueMap), FailNeedUpload)
      ensures auto.queueMap == MapValues(old(auto.queueMap), FailNeedUpload)
    {
      user.DismissAllNeedUpload();
      auto.DismissAllNeedUpload();
    }

    /**
     * `dismissInProgress`: the observed upload's automatic-sync flag names the
     * queue whose observed upload fails.  When that queue observes nothing it
     * throws, and `startUploading` is not reached.
     */
    method DismissInProgress() returns (threw: bool, started: Option<FileUpload>)
      requires Valid()
      modifies this, user, auto
      ensures Valid()
      ensures old(Observed()).None? ==> !threw && user.successMap == old(user.successMap) && auto.successMap == old(auto.successMap)
      ensures old(Observed()).Some? && old(Observed()).value.isAutoSync ==>
                user.queueMap == old(user.queueMap) &&
                (threw <==> old(auto.Resolved()).None?) &&
                (!threw ==> auto.queueMap == Restatus(old(auto.queueMap), old(auto.Resolved()).value.path, Failed))
      ensures old(Observed()).Some? && !old(Observed()).value.isAutoSync ==>
                auto.queueMap == old(auto.queueMap) &&
                (threw <==> old(user.Resolved()).None?) &&
                (!threw ==> user.queueMap == Restatus(old(user.queueMap), old(user.Resolved()).value.path, Failed))
      ensures threw ==> started.None?
    {
      threw := false;
      var current := ObservedFile();
      if current.Some? {
        if current.value.isAutoSync {
          threw := auto.DismissInProgress();
        } else {
          threw := user.DismissInProgress();
        }
        if threw {
          return threw, None;
        }
      }
      started := StartUploading();
    }

    /** `dismissFile`: an upload in progress is dismissed as such; any other by its own queue, then `startUploading`. */
    method DismissFile(file: FileUpload) returns (threw: bool, started: Option<FileUpload>)
      requires Valid()
      modifies this, user, auto
      ensures Valid()
      ensures file.status != InProgress ==> !threw
      ensures file.status != InProgress && file.isAutoSync ==>
                user.queueMap == old(user.queueMap) &&
                auto.queueMap == (if file.status == Failed then Remove(old(auto.queueMap), file.path)
                                  else Restatus(old(auto.queueMap), file.path, Failed))
      ensures file.status != InProgress && !file.isAutoSync ==>
                auto.queueMap == old(auto.queueMap) &&
                user.queueMap == (if file.status == Failed then Remove(old(user.queueMap), file.path)
                                  else Restatus(old(user.queueMap), file.path, Failed))
    {
      if file.status == InProgress {
        threw, started := DismissInProgress();
      } else {
        threw := false;
        if file.isAutoSync {
          auto.DismissFile(file);
        } else {
          user.DismissFile(file);
        }
        started := StartUploading();
      }
    }

    /** `resetLoadingError`: automatic-sync uploads in progress wait again, every user upload fails; then `startUploading`. */
    method ResetLoadingError() returns (started: Option<FileUpload>)
      requires Valid()
      modifies this, user, auto
      ensures Valid()
      ensures auto.queueMap == MapValues(old(auto.queueMap), RequeueInProgress)
      ensures user.queueMap == MapValues(old(user.queueMap), FailAll)
      ensures user.successMap == [] && auto.successMap == []
    {
      auto.ResetLoadingError();
      user.ResetLoadingErrorFailAll();
      started := StartUploading();
    }

    /** `reset`: both queues emptied, the shadow size zeroed and the banner dismissed, as in the initial snapshot. */
    method Reset()
      requires Valid()
      modifies this, user, auto
      ensures Valid() && user == old(user) && auto == old(auto)
      ensures user.queueMap == [] && user.successMap == [] && user.observed == None
      ensures auto.queueMap == [] && auto.successMap == [] && auto.observed == None
      ensures autoTotal == 0 && dismissAllBackedUp && IsAllBackedUp() == false
    {
      auto.Reset();
      user.Reset();
      autoTotal := 0;
      dismissAllBackedUp := true;
    }
  }
}
