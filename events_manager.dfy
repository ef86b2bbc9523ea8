/**
 * The broadcasts the Android scanner sends to React Native
 * (`util/EventsManager.kt`): scan-status and file-change events, each
 * turned into an intent, and the rule that while a scan is running no
 * new-file or file-change event is sent.
 */
module EventsManagers {
  import opened Wrappers

  datatype RNEvent =
    | ScanStatusNoAccess
    | ScanStatusNoScan
    | ScanStatusRunning
    | ScanStatusFinished
    | ScanStatusNewFile
    | FileChange

  const ActionScanStatus := "com.opacity.androidsdk.scan.status"
  const ActionScanStatusExtra := "status"
  const ActionFileChanged := "com.opacity.androidsdk.file.changed"
  const ActionFileChangedFilePathExtra := "path"
  const ActionFileChangedFileSizeExtra := "size"

  datatype Extra = ExtraString(s: string) | ExtraLong(n: int)

  /** An `Intent`: its action and its extras. */
  datatype Intent = Intent(action: string, extras: map<string, Extra>)

  /** `valueMatchRN()`: the name React Native knows the event by. */
  function ValueMatchRN(e: RNEvent): string
  {
    match e
    case ScanStatusNoAccess => "NO_ACCESS"
    case ScanStatusNoScan => "NO_SCAN"
    case ScanStatusRunning => "RUNNING"
    case ScanStatusFinished => "FINISHED"
    case ScanStatusNewFile => "NEW_FILE"
    case FileChange => "FILE_CHANGE"
  }

  /** `buildIntent()`: scan events carry their name under "status"; a file change carries nothing yet. */
  function BuildIntent(e: RNEvent): (r: Intent)
    ensures e != FileChange ==> r == Intent(ActionScanStatus, map[ActionScanStatusExtra := ExtraString(ValueMatchRN(e))])
    ensures e == FileChange ==> r == Intent(ActionFileChanged, map[])
  {
    if e == FileChange then Intent(ActionFileChanged, map[])
    else Intent(ActionScanStatus, map[ActionScanStatusExtra := ExtraString(ValueMatchRN(e))])
  }

  /** The event a received intent stands for. */
  function EventOf(intent: Intent): Option<RNEvent>
  {
    if intent.action == ActionFileChanged then Some(FileChange)
    else if intent.action != ActionScanStatus || ActionScanStatusExtra !in intent.extras then None
    else match intent.extras[ActionScanStatusExtra]
      case ExtraString("NO_ACCESS") => Some(ScanStatusNoAccess)
      case ExtraString("NO_SCAN") => Some(ScanStatusNoScan)
      case ExtraString("RUNNING") => Some(ScanStatusRunning)
      case ExtraString("FINISHED") => Some(ScanStatusFinished)
      case ExtraString("NEW_FILE") => Some(ScanStatusNewFile)
      case _ => None
  }

  /** The receiver can tell every event from its intent. */
  lemma BuildIntentReadsBack(e: RNEvent)
    ensures EventOf(BuildIntent(e)) == Some(e)
  {
    assert ActionScanStatus != ActionFileChanged;
  }

  /** `sendFileChangeRNEvent(path, size)`'s intent. */
  function FileChangeIntent(path: string, size: int): (r: Intent)
    ensures r.action == ActionFileChanged && EventOf(r) == Some(FileChange)
    ensures r.extras.Keys == {ActionFileChangedFilePathExtra, ActionFileChangedFileSizeExtra}
    ensures r.extras[ActionFileChangedFilePathExtra] == ExtraString(path)
    ensures r.extras[ActionFileChangedFileSizeExtra] == ExtraLong(size)
  {
    var base := BuildIntent(FileChange);
    Intent(base.action, base.extras[ActionFileChangedFilePathExtra := ExtraString(path)][ActionFileChangedFileSizeExtra := ExtraLong(size)])
  }

  /** New-file and file-change events are dropped while the last event sent was "scan running". */
  predicate Suppressed(last: Option<RNEvent>, e: RNEvent)
  {
    last == Some(ScanStatusRunning) && (e == ScanStatusNewFile || e == FileChange)
  }

  /** Whether `send` broadcasts: not suppressed, and the app's context is still alive. */
  predicate Delivered(last: Option<RNEvent>, e: RNEvent, hasContext: bool)
  {
    !Suppressed(last, e) && hasContext
  }

  /** The last event after trying to send each of `events` in turn; `contexts[i]` says whether the context was alive for the i-th. */
  function LastAfter(last: Option<RNEvent>, events: seq<RNEvent>, contexts: seq<bool>): Option<RNEvent>
    requires |contexts| == |events|
    decreases |events|
  {
    if events == [] then last
    else LastAfter(if Delivered(last, events[0], contexts[0]) then Some(events[0]) else last, events[1..], contexts[1..])
  }

  /** How many of `events` are broadcast. */
  function SentCount(last: Option<RNEvent>, events: seq<RNEvent>, contexts: seq<bool>): nat
    requires |contexts| == |events|
    decreases |events|
  {
    if events == [] then 0
    else
      var sent := Delivered(last, events[0], contexts[0]);
      (if sent then 1 else 0) + SentCount(if sent then Some(events[0]) else last, events[1..], contexts[1..])
  }

  /** While a scan runs, any number of new-file and file-change events send nothing and leave the scan running. */
  lemma {:induction false} RunningHoldsFileEvents(events: seq<RNEvent>, contexts: seq<bool>)
    requires |contexts| == |events|
    requires forall i :: 0 <= i < |events| ==> events[i] == ScanStatusNewFile || events[i] == FileChange
    ensures SentCount(Some(ScanStatusRunning), events, contexts) == 0
    ensures LastAfter(Some(ScanStatusRunning), events, contexts) == Some(ScanStatusRunning)
  {
    if events != [] {
      RunningHoldsFileEvents(events[1..], contexts[1..]);
    }
  }

  /** The events manager: `lastEvent` and the intents broadcast so far. */
  class EventsManager {
    var lastEvent: Option<RNEvent>
    var broadcasts: seq<Intent>

    constructor()
      ensures lastEvent == None && broadcasts == []
    {
      lastEvent := None;
      broadcasts := [];
    }

    /** `send(rnEvent, intent)`; `hasContext` says whether the weak reference to the app's context is still set. */
    method Send(e: RNEvent, intent: Intent, hasContext: bool)
      modifies this
      ensures Delivered(old(lastEvent), e, hasContext) ==>
                lastEvent == Some(e) && broadcasts == old(broadcasts) + [intent]
      ensures !Delivered(old(lastEvent), e, hasContext) ==>
                lastEvent == old(lastEvent) && broadcasts == old(broadcasts)
    {
      if lastEvent == Some(ScanStatusRunning) && (e == ScanStatusNewFile || e == FileChange) {
        return;
      }
      if hasContext {
        broadcasts := broadcasts + [intent];
        lastEvent := Some(e);
      }
    }

    /** `sendScanStatusRNEvent(rnEvent)`. */
    method SendScanStatusRNEvent(e: RNEvent, hasContext: bool)
      modifies this
      ensures Delivered(old(lastEvent), e, hasContext) ==>
                lastEvent == Some(e) && broadcasts == old(broadcasts) + [BuildIntent(e)]
      ensures !Delivered(old(lastEvent), e, hasContext) ==>
                lastEvent == old(lastEvent) && broadcasts == old(broadcasts)
    {
      Send(e, BuildIntent(e), hasContext);
    }

    /** `sendFileChangeRNEvent(filePath, fileSize)`. */
    method SendFileChangeRNEvent(path: string, size: int, hasContext: bool)
      modifies this
      ensures Delivered(old(lastEvent), FileChange, hasContext) ==>
                lastEvent == Some(FileChange) && broadcasts == old(broadcasts) + [FileChangeIntent(path, size)]
      ensures !Delivered(old(lastEvent), FileChange, hasContext) ==>
                lastEvent == old(lastEvent) && broadcasts == old(broadcasts)
    {
      Send(FileChange, FileChangeIntent(path, size), hasContext);
    }
  }
}
