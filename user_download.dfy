/**
 * The user download store (`UserDownloadStoreModel`): a download queue and
 * the choice of the key a new download is stored under.
 */
module UserDownload {
  import opened Wrappers
  import opened OrderedMaps
  import opened Text
  import DQ = DownloadQueue

  /** Whether `key` names the same file: the part of `key` before its first '-' is `location`. */
  predicate SameFile(key: string, location: string)
  {
    Split(key, '-')[0] == location
  }

  /** `keys.filter(k => k.split('-')[0] === location).length`. */
  function Appearances(keys: seq<string>, location: string): (r: nat)
    ensures r <= |keys|
    ensures r == 0 <==> forall i :: 0 <= i < |keys| ==> !SameFile(keys[i], location)
  {
    if keys == [] then 0
    else
      assert forall i :: 1 <= i < |keys| ==> keys[1..][i - 1] == keys[i];
      (if SameFile(keys[0], location) then 1 else 0) + Appearances(keys[1..], location)
  }

  /** The key `${location}-${n}`. */
  function Numbered(location: string, n: nat): string
  {
    location + "-" + NatToString(n)
  }

  /** A numbered key names the same file as its location, when the location holds no '-'. */
  lemma NumberedIsSameFile(location: string, n: nat)
    requires '-' !in location
    ensures SameFile(Numbered(location, n), location)
  {
    SplitPrefix(location, NatToString(n), '-');
    assert Numbered(location, n) == location + ['-'] + NatToString(n);
  }

  /** Different numbers give different keys. */
  lemma NumberedInjective(location: string, a: nat, b: nat)
    requires Numbered(location, a) == Numbered(location, b)
    ensures a == b
  {
    var pre := |location| + 1;
    assert NatToString(a) == Numbered(location, a)[pre..];
    assert NatToString(b) == Numbered(location, b)[pre..];
    NatToStringValue(a);
    NatToStringValue(b);
  }

  /**
   * The key `downloadFile` stores a file under, as written: the bare
   * location when no queued or downloaded key names the same file, and
   * otherwise the location numbered one past the number of such keys.
   */
  function KeyAsWritten(location: string, queueKeys: seq<string>, successKeys: seq<string>): (r: string)
    ensures r == location <==> Appearances(queueKeys, location) + Appearances(successKeys, location) == 0
    ensures r != location ==> r == Numbered(location, Appearances(queueKeys, location) + Appearances(successKeys, location) + 1)
  {
    var inQueue := Appearances(queueKeys, location);
    var downloaded := Appearances(successKeys, location);
    if inQueue > 0 || downloaded > 0 then
      assert |Numbered(location, inQueue + downloaded + 1)| > |location|;
      Numbered(location, inQueue + downloaded + 1)
    else location
  }

  /**
   * The numbering counts keys, not the numbers in use: once the bare key
   * has left the queue, a second copy of the file is numbered 2 again and
   * lands on the key of the copy still waiting, which `set` then replaces.
   */
  lemma KeyAsWrittenCollides()
    ensures KeyAsWritten("L", ["L-2"], []) == "L-2"
    ensures "L-2" in ["L-2"]
  {
    NumberedIsSameFile("L", 2);
    assert NatToString(2) == "2";
    assert Numbered("L", 2) == "L-2";
    assert Appearances(["L-2"], "L") == 1 by {
      assert ["L-2"][1..] == [];
    }
  }

  /** Taking the taken key `n` out of the candidates leaves every later one that is taken. */
  lemma TakeNumber(location: string, all: seq<string>, free: set<string>, n: nat)
    requires Numbered(location, n) in all
    requires forall j :: j >= n && Numbered(location, j) in all ==> Numbered(location, j) in free
    ensures Numbered(location, n) in free
    ensures forall j :: j >= n + 1 && Numbered(location, j) in all ==> Numbered(location, j) in free - {Numbered(location, n)}
  {
    forall j | j >= n + 1 && Numbered(location, j) in all
      ensures Numbered(location, j) in free - {Numbered(location, n)}
    {
      if Numbered(location, j) == Numbered(location, n) {
        NumberedInjective(location, j, n);
      }
    }
  }

  /**
   * The key a new download is stored under, corrected: the key as written
   * whenever that one is free, and otherwise the next free number.
   */
  method DownloadKey(location: string, queueKeys: seq<string>, successKeys: seq<string>) returns (key: string)
    ensures key !in queueKeys && key !in successKeys
    ensures KeyAsWritten(location, queueKeys, successKeys) !in queueKeys + successKeys ==>
              key == KeyAsWritten(location, queueKeys, successKeys)
  {
    var all := queueKeys + successKeys;
    var count := Appearances(queueKeys, location) + Appearances(successKeys, location);
    if count == 0 && location !in all {
      return location;
    }
    var n: nat := count + 1;
    key := Numbered(location, n);
    ghost var free := set k | k in all;
    while key in all
      invariant key == Numbered(location, n) && n >= count + 1
      invariant forall j :: j >= n && Numbered(location, j) in all ==> Numbered(location, j) in free
      invariant n > count + 1 ==> Numbered(location, count + 1) in all
      decreases |free|
    {
      TakeNumber(location, all, free, n);
      free := free - {key};
      n := n + 1;
      key := Numbered(location, n);
    }
    assert count > 0 ==> KeyAsWritten(location, queueKeys, successKeys) == Numbered(location, count + 1);
  }

  /** `fileInQueueToBeDownloaded` keeps the downloads that have neither failed nor been cancelled. */
  predicate ToBeDownloaded(f: DQ.FileDownload)
  {
    f.status != DQ.Failed && f.status != DQ.Cancelled
  }

  /** The downloads left to do are all but the failed and the cancelled ones. */
  lemma {:induction false} ToBeDownloadedCount(m: DQ.Downloads)
    ensures CountWhere(m, ToBeDownloaded) == |m| - CountWhere(m, DQ.IsFailed) - CountWhere(m, DQ.IsCancelled)
  {
    if m != [] {
      ToBeDownloadedCount(m[1..]);
    }
  }

  class UserDownloadStore {
    var queue: DQ.Queue

    ghost predicate Valid()
      reads this, queue
    {
      queue.Valid()
    }

    constructor()
      ensures Valid() && fresh(queue)
      ensures queue.queueMap == [] && queue.successMap == [] && queue.failCount == 0 && queue.observed == None
    {
      queue := new DQ.Queue();
    }

    /** `currentlyDownloading`. */
    function CurrentlyDownloading(): (r: Option<DQ.FileDownload>)
      reads this, queue
      ensures r.Some? ==> r.value.status == DQ.InProgress
      ensures r.None? <==> forall i :: 0 <= i < |queue.queueMap| ==> queue.queueMap[i].1.status != DQ.InProgress
    {
      queue.CurrentlyDownloading()
    }

    /** `updateFileStatus`: the queue's action, keeping the file's own name. */
    method UpdateFileStatus(file: DQ.FileDownload, status: DQ.DownloadStatus, path: string)
      requires Valid()
      modifies queue
      ensures Valid()
      ensures status == DQ.InProgress ==>
                queue.queueMap == old(queue.queueMap) && queue.successMap == old(queue.successMap) &&
                queue.failCount == old(queue.failCount) &&
                queue.observed == if CountWhere(queue.queueMap, DQ.IsNeedDownload) > 0 &&
                                     (file.status == DQ.Cancelled || file.status == DQ.Failed)
                                  then old(queue.observed) else Some(file.location)
      ensures status == DQ.Failed ==>
                queue.queueMap == DQ.Restatus(old(queue.queueMap), file.location, DQ.Failed, path, file.name) &&
                queue.failCount == old(queue.failCount) + 1 &&
                queue.successMap == old(queue.successMap) && queue.observed == old(queue.observed)
      ensures status == DQ.Cancelled ==>
                queue.queueMap == DQ.Restatus(old(queue.queueMap), file.location, DQ.Cancelled, path, file.name) &&
                queue.observed == None &&
                queue.successMap == old(queue.successMap) && queue.failCount == old(queue.failCount)
      ensures (status == DQ.NeedDownload || status == DQ.Success) ==>
                queue.queueMap == Remove(old(queue.queueMap), file.location) &&
                queue.successMap == Put(old(queue.successMap), file.location, file.(path := path)) &&
                queue.observed == None && queue.failCount == old(queue.failCount)
    {
      queue.UpdateFileStatus(file, status, path, file.name);
    }

    /**
     * `downloadFile`: the file joins the end of the queue, waiting, under a
     * key no queued or downloaded file has; the key is returned.
     */
    method DownloadFile(file: DQ.FileDownload) returns (key: string)
      requires Valid()
      modifies queue
      ensures Valid()
      ensures queue.queueMap == old(queue.queueMap) + [(key, DQ.Queued(key, file))]
      ensures Absent(old(queue.successMap), key)
      ensures var written := KeyAsWritten(file.location, Keys(old(queue.queueMap)), Keys(old(queue.successMap)));
              written !in Keys(old(queue.queueMap)) + Keys(old(queue.successMap)) ==> key == written
      ensures queue.successMap == old(queue.successMap) && queue.failCount == old(queue.failCount)
      ensures queue.observed == old(queue.observed)
    {
      var queueKeys := Keys(queue.queueMap);
      var successKeys := Keys(queue.successMap);
      key := DownloadKey(file.location, queueKeys, successKeys);
      assert Absent(queue.queueMap, key) by {
        forall i | 0 <= i < |queue.queueMap| ensures queue.queueMap[i].0 != key {
          assert queueKeys[i] == queue.queueMap[i].0;
        }
      }
      assert Absent(queue.successMap, key) by {
        forall i | 0 <= i < |queue.successMap| ensures queue.successMap[i].0 != key {
          assert successKeys[i] == queue.successMap[i].0;
        }
      }
      queue.Set(key, file);
    }

    /** `dismissFile`. */
    method DismissFile(file: DQ.FileDownload)
      requires Valid()
      modifies queue
      ensures Valid() && queue.queueMap == MapValues(old(queue.queueMap), DQ.CancelAt(file.location))
      ensures queue.failCount == if file.status == DQ.Failed then old(queue.failCount) - 1 else old(queue.failCount)
      ensures queue.successMap == old(queue.successMap) && queue.observed == old(queue.observed)
    {
      queue.DismissFile(file);
    }

    /** `fileInQueueToBeDownloaded`: the queued downloads that have neither failed nor been cancelled, in queue order. */
    function FileInQueueToBeDownloaded(): (r: seq<DQ.FileDownload>)
      reads this, queue
      ensures r == ValuesWhere(queue.queueMap, ToBeDownloaded)
      ensures |r| == |queue.queueMap| - CountWhere(queue.queueMap, DQ.IsFailed) - CountWhere(queue.queueMap, DQ.IsCancelled)
      ensures forall x :: 0 <= x < |r| ==> r[x].status != DQ.Failed && r[x].status != DQ.Cancelled
    {
      ToBeDownloadedCount(queue.queueMap);
      ValuesWhere(queue.queueMap, ToBeDownloaded)
    }

    /** `removeFileFromQueue`. */
    method RemoveFileFromQueue(file: DQ.FileDownload)
      requires Valid()
      modifies queue
      ensures Valid() && queue.queueMap == MapValues(old(queue.queueMap), DQ.DropAt(file.location))
      ensures queue.failCount == if file.status == DQ.Failed then old(queue.failCount) - 1 else old(queue.failCount)
      ensures queue.successMap == old(queue.successMap) && queue.observed == old(queue.observed)
    {
      queue.RemoveFileFromQueue(file);
    }

    /** `resetLoadingError`: every queued download fails. */
    method ResetLoadingError()
      requires Valid()
      modifies queue
      ensures Valid() && queue.queueMap == MapValues(old(queue.queueMap), DQ.FailAll)
      ensures queue.failCount == |queue.queueMap| && queue.successMap == [] && queue.observed == None
    {
      queue.ResetLoadingErrorFailAll();
    }

    /** `reset`: the queue is emptied, and the snapshot applied afterwards also drops the observed file. */
    method Reset()
      requires Valid()
      modifies queue
      ensures Valid()
      ensures queue.queueMap == [] && queue.successMap == [] && queue.failCount == 0 && queue.observed == None
    {
      queue.Reset();
      queue.SetObservedFileDownload(None);
    }
  }
}
