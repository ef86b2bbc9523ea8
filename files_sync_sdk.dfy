/**
 * The SDK entry points the app calls (`FilesSyncSDK.kt`): the file counts,
 * one page of a directory's listing, and the status updates the app sends
 * back. The listing query itself (with its sorting and search) and the
 * lookup of the directory's row are parameters.
 */
module FilesSyncSdk {
  import opened Wrappers
  import opened SyncConfigs
  import opened FileRecords
  import opened RnFiles
  import opened FilesDaos

  // ---------------------------------------------------------------------------
  // getTotalCount
  // ---------------------------------------------------------------------------

  /**
   * `getTotalCount(status)`: all files for no status or an unknown one, the
   * files marked deleted for "deleted", the files with that status otherwise.
   */
  function GetTotalCount(t: Table, status: Option<string>): (r: nat)
    ensures r <= CountFiles(t)
    ensures ParseFileStatus(status).None? ==> r == CountFiles(t)
    ensures ParseFileStatus(status) == Some(FileStatus.Deleted) ==> r == CountDeletedFiles(t)
    ensures ParseFileStatus(status).Some? && ParseFileStatus(status).value != FileStatus.Deleted ==>
              r == CountFilesWithStatus(t, ParseFileStatus(status).value)
  {
    match ParseFileStatus(status)
    case None => CountFiles(t)
    case Some(s) =>
      CountsBounded(t, s);
      if s == FileStatus.Deleted then CountDeletedFiles(t) else CountFilesWithStatus(t, s)
  }

  // ---------------------------------------------------------------------------
  // getFilesInDir
  // ---------------------------------------------------------------------------

  /** `GetFilesOptions`: the page asked for (a JavaScript number), the directory, the sort key and the search text. */
  datatype GetFilesOptions = GetFilesOptions(page: real, dirPath: string, sortBy: Option<string>, searchText: string)

  /** `FilePageList`: the files of one page, their 1-based first and last positions, and the page asked for. */
  datatype FilePageList = FilePageList(data: seq<File>, start: int, end: int, page: real)

  /** Why a page request throws: reading the listing at a negative index. */
  datatype PageError = IndexOutOfBounds(index: int)

  /** `FilePageList.dummyFilePageList(page)`: an empty page. */
  function DummyFilePageList(page: real): FilePageList
  {
    FilePageList([], 0, 0, page)
  }

  /** Entries per page. */
  const PageMax := 25

  /** Kotlin's `Double.toInt()`: truncated toward zero, saturated to the `Int` range. */
  function ToInt(x: real): (r: int)
    ensures -0x8000_0000 <= r < 0x8000_0000
    ensures -0x8000_0000 as real <= x < 0x8000_0000 as real ==> (r as real) - 1.0 < x < (r as real) + 1.0
    ensures x >= 0.0 ==> r >= 0 && r as real <= x
    ensures x <= 0.0 ==> r <= 0 && r as real >= x
  {
    var t := if x >= 0.0 then x.Floor else -((-x).Floor);
    if t > 0x7fff_ffff then 0x7fff_ffff else if t < -0x8000_0000 then -0x8000_0000 else t
  }

  /** The 0-based index of the first entry of page `pageNum` (pages count from 1). */
  function PageStart(pageNum: int): (r: int)
    ensures pageNum >= 1 ==> r >= 0 && r % PageMax == 0 && r / PageMax == pageNum - 1
    ensures pageNum < 1 ==> r < 0
  {
    if pageNum == 1 then 0 else (pageNum - 1) * PageMax
  }

  /** The start index as written: `(pageNum - 1) * pageMax` in 32-bit `Int` arithmetic. */
  function PageStartAsWritten(pageNum: int): (r: int)
    ensures -0x8000_0000 <= r < 0x8000_0000
    ensures (r - PageStart(pageNum)) % 0x1_0000_0000 == 0
  {
    if pageNum == 1 then 0
    else
      var a := pageNum - 1;
      CongruentScaled(Int32(a), a, PageMax);
      CongruentTrans(Int32(Int32(a) * PageMax), Int32(a) * PageMax, a * PageMax);
      Int32(Int32(a) * PageMax)
  }

  /** Congruence modulo 2^32 survives multiplying both sides by the same factor. */
  lemma CongruentScaled(x: int, y: int, c: int)
    requires (x - y) % 0x1_0000_0000 == 0
    ensures (x * c - y * c) % 0x1_0000_0000 == 0
  {
    var k := (x - y) / 0x1_0000_0000;
    assert x - y == k * 0x1_0000_0000;
    assert x * c - y * c == (x - y) * c;
    assert (x - y) * c == (k * c) * 0x1_0000_0000;
  }

  /** Congruence modulo 2^32 is transitive. */
  lemma CongruentTrans(x: int, y: int, z: int)
    requires (x - y) % 0x1_0000_0000 == 0 && (y - z) % 0x1_0000_0000 == 0
    ensures (x - z) % 0x1_0000_0000 == 0
  {
    var k, l := (x - y) / 0x1_0000_0000, (y - z) / 0x1_0000_0000;
    assert x - z == (k + l) * 0x1_0000_0000;
  }

  /** The entries of the listing from `start` on, at most one page of them. */
  function PageEntries(filesList: seq<PartialFileRecord>, start: nat): (r: seq<PartialFileRecord>)
    ensures |r| <= PageMax
    ensures start < |filesList| ==> r != []
    ensures forall j :: 0 <= j < |r| ==> start + j < |filesList| && r[j] == filesList[start + j]
  {
    if start >= |filesList| then []
    else filesList[start..if start + PageMax < |filesList| then start + PageMax else |filesList|]
  }

  /** Each entry shown to the app: `File.parse` of its row. */
  function ParseAll(recs: seq<PartialFileRecord>): (r: seq<File>)
    ensures |r| == |recs| && forall j :: 0 <= j < |r| ==> r[j] == ParseRecord(recs[j])
  {
    seq(|recs|, j requires 0 <= j < |recs| => ParseRecord(recs[j]))
  }

  /**
   * The answer to a page request and the rows it shows: `dirFound` says
   * whether the directory has a row, `filesList` is the sorted and searched
   * listing of its entries.
   */
  function FilesInDir(options: Option<GetFilesOptions>, dirFound: bool, filesList: seq<PartialFileRecord>)
    : (r: (Result<FilePageList, PageError>, seq<PartialFileRecord>))
    ensures options.None? ==> r == (Ok(DummyFilePageList(0.0)), [])
    ensures r.0.Err? || !dirFound ==> r.1 == []
    ensures r.1 != [] ==> r.0.Ok? && r.0.value.data == ParseAll(r.1) && |r.1| <= PageMax
  {
    match options
    case None => (Ok(DummyFilePageList(0.0)), [])
    case Some(o) =>
      var start := PageStart(ToInt(o.page));
      if o.dirPath == "" || !dirFound || start >= |filesList| then (Ok(DummyFilePageList(o.page)), [])
      else if start < 0 then (Err(IndexOutOfBounds(start)), [])
      else
        var shown := PageEntries(filesList, start);
        (Ok(FilePageList(ParseAll(shown), start + 1, start + |shown|, o.page)), shown)
  }

  /**
   * A page lists, in order, the entries from its 1-based `start` position
   * to its `end` position, each as `File.parse` of its row; a page number
   * below 1 that reaches the listing throws.
   */
  lemma PageReadsBack(o: GetFilesOptions, filesList: seq<PartialFileRecord>)
    requires o.dirPath != ""
    ensures var (r, shown) := FilesInDir(Some(o), true, filesList);
            (r.Err? <==> ToInt(o.page) < 1) &&
            (r.Ok? && r.value.data != [] ==>
               1 <= r.value.start <= r.value.end <= |filesList| && r.value.end - r.value.start + 1 == |r.value.data| &&
               |r.value.data| <= PageMax && shown == filesList[r.value.start - 1..r.value.end] &&
               forall j :: 0 <= j < |r.value.data| ==> r.value.data[j] == ParseRecord(filesList[r.value.start - 1 + j]))
  {
    PageFailsBelowOne(o, filesList);
    PageShowsSlice(o, filesList);
  }

  /** A page request for a known directory fails exactly when the page number is below 1. */
  lemma PageFailsBelowOne(o: GetFilesOptions, filesList: seq<PartialFileRecord>)
    requires o.dirPath != ""
    ensures FilesInDir(Some(o), true, filesList).0.Err? <==> ToInt(o.page) < 1
  {
    var p := ToInt(o.page);
    if p < 1 {
      assert (p - 1) * PageMax < 0;
    } else {
      assert (p - 1) * PageMax >= 0;
    }
  }

  /** A non-empty page shows the slice from its `start` to its `end` position, parsed. */
  lemma PageShowsSlice(o: GetFilesOptions, filesList: seq<PartialFileRecord>)
    requires o.dirPath != ""
    ensures var (r, shown) := FilesInDir(Some(o), true, filesList);
            r.Ok? && r.value.data != [] ==>
              1 <= r.value.start <= r.value.end <= |filesList| && r.value.end - r.value.start + 1 == |r.value.data| &&
              |r.value.data| <= PageMax && shown == filesList[r.value.start - 1..r.value.end] &&
              forall j :: 0 <= j < |r.value.data| ==> r.value.data[j] == ParseRecord(filesList[r.value.start - 1 + j])
  {
    var (r, shown) := FilesInDir(Some(o), true, filesList);
    if r.Ok? && r.value.data != [] {
      var start := PageStart(ToInt(o.page));
      assert shown == PageEntries(filesList, start);
      assert shown == filesList[start..start + |shown|];
    }
  }

  /** Every entry of the listing is on exactly one page: page `i / 25 + 1` for the entry at index `i`. */
  lemma EveryEntryOnOnePage(i: nat, pageNum: int)
    requires pageNum >= 1
    ensures PageStart(pageNum) <= i < PageStart(pageNum) + PageMax <==> pageNum == i / PageMax + 1
  {
    var q := i / PageMax;
    assert PageStart(pageNum) == (pageNum - 1) * PageMax;
    if pageNum - 1 < q {
      assert (pageNum - 1) * PageMax + PageMax <= q * PageMax;
    } else if pageNum - 1 > q {
      assert (pageNum - 1) * PageMax >= (q + 1) * PageMax;
    }
  }

  /** The start index as written agrees with the intended one while `(pageNum - 1) * 25` fits in an `Int`. */
  lemma PageStartAgrees(pageNum: int)
    requires -85899344 <= pageNum <= 85899346
    ensures PageStartAsWritten(pageNum) == PageStart(pageNum)
  {
    assert -0x8000_0000 <= (pageNum - 1) * PageMax < 0x8000_0000;
    Int32InRange(pageNum - 1);
    Int32InRange((pageNum - 1) * PageMax);
  }

  /**
   * Page 171798693 wraps around: as written it starts at index 4 and so
   * lists the fifth entry onwards of any listing longer than four entries,
   * while the intended start lies far past the end of any listing.
   */
  lemma PageStartWraps()
    ensures PageStartAsWritten(171798693) == 4
    ensures PageStart(171798693) == 4294967300
  {
    Int32InRange(171798692);
  }

  /**
   * `getFilesInDir(options)`: answers with one page of the directory's
   * listing and then records, for each row shown, the path the app now
   * knows it by. The start index is computed without 32-bit wrap-around.
   */
  method GetFilesInDir(options: Option<GetFilesOptions>, dirFound: bool, filesList: seq<PartialFileRecord>,
                       dao: FilesDao, now: int) returns (r: Result<FilePageList, PageError>)
    requires dao.Valid()
    modifies dao
    ensures dao.Valid()
    ensures r == FilesInDir(options, dirFound, filesList).0
    ensures dao.rows == WithLastRNPaths(old(dao.rows), FilesInDir(options, dirFound, filesList).1, now)
  {
    if options.None? {
      return Ok(DummyFilePageList(0.0));
    }
    var o := options.value;
    if o.dirPath == "" || !dirFound {
      return Ok(DummyFilePageList(o.page));
    }
    var pageNum := ToInt(o.page);
    var startIndex := if pageNum == 1 then 0 else (pageNum - 1) * PageMax;
    if startIndex >= |filesList| {
      return Ok(DummyFilePageList(o.page));
    }
    if startIndex < 0 {
      // `filesList[startIndex]` throws on the loop's first pass.
      return Err(IndexOutOfBounds(startIndex));
    }
    var files, records := ReadPage(filesList, startIndex);
    startIndex := startIndex + 1;
    var endIndex := startIndex + |files| - 1;
    r := Ok(FilePageList(files, startIndex, endIndex, o.page));
    if records != [] {
      dao.UpdateFilesLastRNPath(records, now);
    }
  }

  /** The loop of `getFilesInDir`: the rows from `startIndex` up to a page's worth or the end of the listing, and their files. */
  method ReadPage(filesList: seq<PartialFileRecord>, startIndex: nat) returns (files: seq<File>, records: seq<PartialFileRecord>)
    requires startIndex < |filesList|
    ensures records == PageEntries(filesList, startIndex) && files == ParseAll(records)
  {
    files, records := [], [];
    var endIndex := startIndex + PageMax - 1;
    var index := startIndex;
    while index <= endIndex
      invariant startIndex <= index <= endIndex + 1 && index <= |filesList|
      invariant records == filesList[startIndex..index] && files == ParseAll(records)
    {
      if index >= |filesList| {
        break;
      }
      records := records + [filesList[index]];
      files := files + [ParseRecord(filesList[index])];
      index := index + 1;
    }
  }

  // ---------------------------------------------------------------------------
  // updateFilesStatus
  // ---------------------------------------------------------------------------

  /** A failed upload reported by the app is stored as "needs sync", so it is tried again. */
  function Retried(rec: FileStatusRecord): FileStatusRecord
  {
    if rec.status == UploadFailed then rec.(status := NeedsSync) else rec
  }

  /**
   * The status updates read from the app's array: null items and maps that
   * do not parse are skipped; a map whose path or status is not a string
   * throws, and the first such item decides the error.
   */
  function StatusUpdates(items: seq<Option<ReadableMap>>): (r: Result<seq<FileStatusRecord>, MapError>)
    ensures r.Err? ==> exists j :: 0 <= j < |items| && items[j].Some? && ParseStatusMap(items[j].value) == Err(r.error)
    decreases |items|
  {
    if items == [] then Ok([])
    else
      var before := StatusUpdates(items[..|items| - 1]);
      assert forall j :: 0 <= j < |items| - 1 ==> items[..|items| - 1][j] == items[j];
      if before.Err? then before
      else match items[|items| - 1]
        case None => before
        case Some(m) =>
          match ParseStatusMap(m)
          case Err(e) => Err(e)
          case Ok(None) => before
          case Ok(Some(rec)) => Ok(before.value + [Retried(rec)])
  }

  /** No update ever stores "upload failed", and there is at most one update per item. */
  lemma {:induction false} UpdatesNeverStoreFailure(items: seq<Option<ReadableMap>>)
    ensures StatusUpdates(items).Ok? ==>
              |StatusUpdates(items).value| <= |items| &&
              forall j :: 0 <= j < |StatusUpdates(items).value| ==> StatusUpdates(items).value[j].status != UploadFailed
    decreases |items|
  {
    if items != [] {
      UpdatesNeverStoreFailure(items[..|items| - 1]);
    }
  }

  /** The bridge maps of the files shown for `shown`, as the app would send them back. */
  function SentBack(shown: seq<PartialFileRecord>): seq<Option<ReadableMap>>
    decreases |shown|
  {
    if shown == [] then [] else SentBack(shown[..|shown| - 1]) + [Some(GetMap(ParseRecord(shown[|shown| - 1])))]
  }

  /** The update a shown row reads back as: the path the app knows, the status it was shown, a failed upload retried. */
  function ShownStatus(rec: PartialFileRecord): FileStatusRecord
  {
    Retried(FileStatusRecord(ParseRecord(rec).path, if rec.change == Change.Deleted then FileStatus.Deleted else rec.status))
  }

  function ShownStatuses(shown: seq<PartialFileRecord>): seq<FileStatusRecord>
    decreases |shown|
  {
    if shown == [] then [] else ShownStatuses(shown[..|shown| - 1]) + [ShownStatus(shown[|shown| - 1])]
  }

  /**
   * A page of rows shown to the app and sent back unchanged reads as one
   * update per row, for the path the app knows it by, with the status it
   * was shown (a failed upload turned into "needs sync").
   */
  lemma {:induction false} ShownPageReadsBack(shown: seq<PartialFileRecord>)
    ensures StatusUpdates(SentBack(shown)) == Ok(ShownStatuses(shown))
    decreases |shown|
  {
    if shown != [] {
      var n := |shown|;
      var init, last := shown[..n - 1], shown[n - 1];
      ShownPageReadsBack(init);
      ShownRecordReadsBack(last);
      var items := SentBack(shown);
      assert items[..|items| - 1] == SentBack(init);
    }
  }

  /**
   * `updateFilesStatus(filesList)`: true for no array or an empty one;
   * otherwise the updates read from the array are stored and the answer is
   * whether there were any.
   */
  method UpdateFilesStatus(filesList: Option<seq<Option<ReadableMap>>>, dao: FilesDao, now: int)
    returns (r: Result<bool, MapError>)
    requires dao.Valid()
    modifies dao
    ensures dao.Valid()
    ensures filesList.None? || filesList.value == [] ==> r == Ok(true) && dao.rows == old(dao.rows)
    ensures filesList.Some? && filesList.value != [] ==>
              match StatusUpdates(filesList.value)
              case Err(e) => r == Err(e) && dao.rows == old(dao.rows)
              case Ok(recs) => r == Ok(recs != []) && dao.rows == WithStatuses(old(dao.rows), recs, now)
  {
    if filesList.None? || |filesList.value| == 0 {
      return Ok(true);
    }
    var items := filesList.value;
    var fileRecords: seq<FileStatusRecord> := [];
    var i := 0;
    while i < |items|
      invariant 0 <= i <= |items|
      invariant StatusUpdates(items[..i]) == Ok(fileRecords)
    {
      assert items[..i + 1][..i] == items[..i];
      if items[i].Some? {
        var parsed := ParseStatusMap(items[i].value);
        if parsed.Err? {
          assert items[..i + 1] + items[i + 1..] == items;
          StatusErrorSticks(items[..i + 1], items[i + 1..]);
          return Err(parsed.error);
        }
        if parsed.value.Some? {
          var fileStatusRecord := parsed.value.value;
          if fileStatusRecord.status == UploadFailed {
            fileStatusRecord := fileStatusRecord.(status := NeedsSync);
          }
          fileRecords := fileRecords + [fileStatusRecord];
        }
      }
      i := i + 1;
    }
    assert items[..i] == items;
    if fileRecords == [] {
      return Ok(false);
    }
    dao.UpdateFilesStatusByLastRNPath(fileRecords, now);
    return Ok(true);
  }

  /** Once an item throws, the items after it do not matter. */
  lemma {:induction false} StatusErrorSticks(items: seq<Option<ReadableMap>>, more: seq<Option<ReadableMap>>)
    requires StatusUpdates(items).Err?
    ensures StatusUpdates(items + more) == StatusUpdates(items)
    decreases |more|
  {
    if more != [] {
      var init := more[..|more| - 1];
      StatusErrorSticks(items, init);
      assert (items + more)[..|items + more| - 1] == items + init;
    } else {
      assert items + more == items;
    }
  }
}
