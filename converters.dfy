/**
 * How the scanner's database stores values that are not plain columns
 * (`db/converters/Converters.kt`): dates as milliseconds, enums by their
 * names, and the white list as one string with every path followed by '|'.
 */
module Converters {
  import opened Wrappers
  import opened Text
  import opened FileRecords

  /** A `java.util.Date`: milliseconds since the epoch. */
  datatype Date = Date(time: int)

  /** `fromDateToLong(date)`: no date is stored as 0. */
  function FromDateToLong(date: Option<Date>): (r: int)
    ensures date.None? ==> r == 0
    ensures date.Some? ==> r == date.value.time
  {
    if date.None? then 0 else date.value.time
  }

  /** `fromLongToDate(millis)`. */
  function FromLongToDate(millis: int): (r: Date)
    ensures r.time == millis
  {
    Date(millis)
  }

  /** Dates round-trip through their stored form; a missing date comes back as the epoch. */
  lemma DateRoundTrip(date: Date, millis: int)
    ensures FromLongToDate(FromDateToLong(Some(date))) == date
    ensures FromDateToLong(Some(FromLongToDate(millis))) == millis
    ensures FromLongToDate(FromDateToLong(None)) == Date(0)
  {
  }

  /** Why `Enum.valueOf` throws: the text is no constant's name. */
  datatype ConvertError = IllegalArgument(text: string)

  /** `FileStatus.toString()`: the constant's name. */
  function FileStatusName(s: FileStatus): string
  {
    match s
    case NoSync => "NO_SYNC"
    case NeedsSync => "NEEDS_SYNC"
    case Synced => "SYNCED"
    case UploadInProgress => "UPLOAD_IN_PROGRESS"
    case UploadFailed => "UPLOAD_FAILED"
    case Deleted => "DELETED"
  }

  /** `FileStatus.valueOf(text)`. */
  function FileStatusValueOf(text: string): (r: Result<FileStatus, ConvertError>)
    ensures r.Ok? ==> FileStatusName(r.value) == text
    ensures r.Err? ==> r.error == IllegalArgument(text)
  {
    match text
    case "NO_SYNC" => Ok(NoSync)
    case "NEEDS_SYNC" => Ok(NeedsSync)
    case "SYNCED" => Ok(Synced)
    case "UPLOAD_IN_PROGRESS" => Ok(UploadInProgress)
    case "UPLOAD_FAILED" => Ok(UploadFailed)
    case "DELETED" => Ok(FileStatus.Deleted)
    case _ => Err(IllegalArgument(text))
  }

  /** `Change.toString()`. */
  function ChangeName(c: Change): string
  {
    match c
    case NoChange => "NONE"
    case Created => "CREATED"
    case Modified => "MODIFIED"
    case Deleted => "DELETED"
    case Moved => "MOVED"
    case Renamed => "RENAMED"
  }

  /** `Change.valueOf(text)`. */
  function ChangeValueOf(text: string): (r: Result<Change, ConvertError>)
    ensures r.Ok? ==> ChangeName(r.value) == text
    ensures r.Err? ==> r.error == IllegalArgument(text)
  {
    match text
    case "NONE" => Ok(NoChange)
    case "CREATED" => Ok(Created)
    case "MODIFIED" => Ok(Modified)
    case "DELETED" => Ok(Change.Deleted)
    case "MOVED" => Ok(Moved)
    case "RENAMED" => Ok(Renamed)
    case _ => Err(IllegalArgument(text))
  }

  /** The state of a file-system scan (declared beside the volume observer). */
  datatype ScanStatus = NoAccess | NoScan | Running | Finished

  /** `ScanStatus.toString()`. */
  function ScanStatusName(s: ScanStatus): string
  {
    match s
    case NoAccess => "NO_ACCESS"
    case NoScan => "NO_SCAN"
    case Running => "RUNNING"
    case Finished => "FINISHED"
  }

  /** `ScanStatus.valueOf(text)`. */
  function ScanStatusValueOf(text: string): (r: Result<ScanStatus, ConvertError>)
    ensures r.Ok? ==> ScanStatusName(r.value) == text
    ensures r.Err? ==> r.error == IllegalArgument(text)
  {
    match text
    case "NO_ACCESS" => Ok(NoAccess)
    case "NO_SCAN" => Ok(NoScan)
    case "RUNNING" => Ok(Running)
    case "FINISHED" => Ok(Finished)
    case _ => Err(IllegalArgument(text))
  }

  /** Every enum constant is read back from its stored name. */
  lemma EnumNamesRoundTrip(s: FileStatus, c: Change, scan: ScanStatus)
    ensures FileStatusValueOf(FileStatusName(s)) == Ok(s)
    ensures ChangeValueOf(ChangeName(c)) == Ok(c)
    ensures ScanStatusValueOf(ScanStatusName(scan)) == Ok(scan)
  {
  }

  /** The stored white list: each path followed by '|'. */
  function WhitelistText(paths: seq<string>): string
  {
    if paths == [] then "" else paths[0] + "|" + WhitelistText(paths[1..])
  }

  lemma {:induction false} WhitelistTextSnoc(paths: seq<string>, p: string)
    ensures WhitelistText(paths + [p]) == WhitelistText(paths) + p + "|"
  {
    if paths != [] {
      assert (paths + [p])[1..] == paths[1..] + [p];
      WhitelistTextSnoc(paths[1..], p);
    }
  }

  /** `fromWhitelistedPathsToString(paths)`: a `StringBuilder` appended path by path. */
  method FromWhitelistedPathsToString(paths: seq<string>) returns (s: string)
    ensures s == WhitelistText(paths)
    ensures |s| >= |paths| && Count(s, '|') >= |paths|
  {
    s := "";
    for i := 0 to |paths|
      invariant s == WhitelistText(paths[..i])
    {
      WhitelistTextSnoc(paths[..i], paths[i]);
      assert paths[..i + 1] == paths[..i] + [paths[i]];
      s := s + paths[i] + "|";
    }
    assert paths[..|paths|] == paths;
    WhitelistTextBars(paths);
  }

  /** Each path contributes at least its '|'. */
  lemma {:induction false} WhitelistTextBars(paths: seq<string>)
    ensures |WhitelistText(paths)| >= |paths| && Count(WhitelistText(paths), '|') >= |paths|
  {
    if paths != [] {
      WhitelistTextBars(paths[1..]);
      CountAppend(paths[0] + "|", WhitelistText(paths[1..]), '|');
      CountAppend(paths[0], "|", '|');
      assert Count("|", '|') == 1;
    }
  }

  lemma {:induction false} CountAppend(a: string, b: string, c: char)
    ensures Count(a + b, c) == Count(a, c) + Count(b, c)
  {
    if a == [] {
      assert a + b == b;
    } else {
      assert (a + b)[1..] == a[1..] + b;
      CountAppend(a[1..], b, c);
    }
  }

  /** The pieces that are not empty, in order. */
  function NonEmpty(pieces: seq<string>): (r: seq<string>)
    ensures |r| <= |pieces|
    ensures forall i :: 0 <= i < |r| ==> r[i] != "" && r[i] in pieces
  {
    if pieces == [] then []
    else (if pieces[0] == "" then [] else [pieces[0]]) + NonEmpty(pieces[1..])
  }

  lemma {:induction false} NonEmptySnoc(pieces: seq<string>, p: string)
    ensures NonEmpty(pieces + [p]) == NonEmpty(pieces) + (if p == "" then [] else [p])
  {
    if pieces != [] {
      assert (pieces + [p])[1..] == pieces[1..] + [p];
      NonEmptySnoc(pieces[1..], p);
    }
  }

  /** The list stored in `text`: the non-empty pieces between '|'. */
  function WhitelistOf(text: string): (r: seq<string>)
    ensures forall i :: 0 <= i < |r| ==> r[i] != "" && '|' !in r[i]
  {
    if text == "" then [] else NonEmpty(Split(text, '|'))
  }

  /** `fromStringToWhitelistedPaths(text)`: split on '|' and keep the non-empty pieces. */
  method FromStringToWhitelistedPaths(text: string) returns (paths: seq<string>)
    ensures paths == WhitelistOf(text)
  {
    paths := [];
    if text != "" {
      var pieces := Split(text, '|');
      for i := 0 to |pieces|
        invariant paths == NonEmpty(pieces[..i])
      {
        NonEmptySnoc(pieces[..i], pieces[i]);
        assert pieces[..i + 1] == pieces[..i] + [pieces[i]];
        if pieces[i] != "" {
          paths := paths + [pieces[i]];
        }
      }
      assert pieces[..|pieces|] == pieces;
    }
  }

  /** Splitting the stored text gives the paths and one empty piece after the last '|'. */
  lemma {:induction false} SplitWhitelistText(paths: seq<string>)
    requires forall i :: 0 <= i < |paths| ==> '|' !in paths[i]
    ensures Split(WhitelistText(paths), '|') == paths + [""]
  {
    if paths != [] {
      SplitWhitelistText(paths[1..]);
      assert paths[0] + "|" + WhitelistText(paths[1..]) == paths[0] + ['|'] + WhitelistText(paths[1..]);
      SplitPrefix(paths[0], WhitelistText(paths[1..]), '|');
      assert [paths[0]] + (paths[1..] + [""]) == paths + [""];
    }
  }

  lemma {:induction false} NonEmptyKeeps(paths: seq<string>)
    requires forall i :: 0 <= i < |paths| ==> paths[i] != ""
    ensures NonEmpty(paths + [""]) == paths
  {
    if paths != [] {
      assert (paths + [""])[1..] == paths[1..] + [""];
      NonEmptyKeeps(paths[1..]);
    }
  }

  /** A list of non-empty paths without '|' is stored and read back unchanged. */
  lemma WhitelistRoundTrip(paths: seq<string>)
    requires forall i :: 0 <= i < |paths| ==> paths[i] != "" && '|' !in paths[i]
    ensures WhitelistOf(WhitelistText(paths)) == paths
  {
    SplitWhitelistText(paths);
    NonEmptyKeeps(paths);
    if paths != [] {
      assert WhitelistText(paths) != "";
    }
  }

  /** An empty path is lost: `[""]` is stored as "|" and read back as the empty list. */
  lemma EmptyPathDropped()
    ensures WhitelistText([""]) == "|"
    ensures WhitelistOf("|") == []
  {
    SplitWhitelistText([""]);
    assert [""][1..] == [];
  }
}
