/** Queued events, their delivery classes and the relation that lets one event replace another. */
module Events {
  import opened Bytes

  /** `QueuedEvent`: `kind` and `source` are 32-bit codes, `data` is the payload, and `osTime` is the
      time of the OS input behind the event, 0 when unknown. */
  datatype Event = Event(
    kind: nat, source: nat, flags: nat, requestId: nat, result: int, dataCount: nat,
    data: seq<byte>, osTime: nat)

  const WINDOW_RESIZE := 2
  const WINDOW_MOVE := 5
  const WINDOW_FRAMEBUFFER_RESIZE := 6
  const POINTER_MOVE := 12
  const DEVICE_ORIENTATION_CHANGED := 22
  const DISPLAY_ORIENTATION_CHANGED := 23
  const SENSOR_UPDATE := 25
  const SENSOR_PERMISSION_COMPLETE := 26
  const JOYSTICK_AXIS := 32
  const GAMEPAD_AXIS := 35
  const GAMEPAD_BUTTON := 36
  const DIALOG_RESOURCES_COMPLETE := 101
  const DIALOG_MESSAGE_COMPLETE := 102
  const WEBVIEW_EVAL_COMPLETE := 203
  const CLIPBOARD_TEXT_COMPLETE := 400
  const CLIPBOARD_FILES_COMPLETE := 401
  const CLIPBOARD_RESOURCES_COMPLETE := 402
  const CLIPBOARD_CHANGED := 403
  const FILE_CHANGED := 410
  const FILE_WATCH_OVERFLOW := 411
  const FILE_WATCH_READY := 412
  const NOTIFICATION_DELIVERED := 500
  const NOTIFICATION_FAILED := 503
  const SURFACE_RESIZE := 701
  const RESOURCE_DATA_COMPLETE := 803
  const RESOURCE_COMMIT_COMPLETE := 804
  const RESOURCE_CACHE_READY := 805
  const RESOURCE_CACHE_LOAD_FAILED := 806
  const HTTP_HEADERS := 900
  const HTTP_DATA_AVAILABLE := 901
  const HTTP_COMPLETE := 903
  const AUDIO_VOICE_COMPLETE := 904
  const AUDIO_VOICE_STREAM_FAILED := 917
  const TRANSPORT_CONNECTED := 950
  const TRANSPORT_ACCEPTED := 951
  const TRANSPORT_CLOSED := 954
  const TRANSPORT_FAILED := 955
  const PLUGIN_COMPLETE := 1000
  const TASK_PROGRESS := 1100
  const TASK_COMPLETE := 1101
  const TASK_FAILED := 1102
  const TASK_CANCELLED := 1103

  const INVALID_REQUEST := 0

  /** Kinds that end a request whether or not they carry a request id. The audio kinds are the
      contiguous codes 904 to 917. */
  predicate AlwaysTerminal(kind: nat) {
    || kind == TRANSPORT_CONNECTED || kind == TRANSPORT_ACCEPTED
    || kind == TRANSPORT_CLOSED || kind == TRANSPORT_FAILED
    || AUDIO_VOICE_COMPLETE <= kind <= AUDIO_VOICE_STREAM_FAILED
    || kind == TASK_COMPLETE || kind == TASK_FAILED || kind == TASK_CANCELLED
  }

  /** Kinds that end a request only when they name one. */
  predicate RequestTerminal(kind: nat) {
    || kind == DIALOG_RESOURCES_COMPLETE || kind == DIALOG_MESSAGE_COMPLETE
    || kind == WEBVIEW_EVAL_COMPLETE || kind == CLIPBOARD_TEXT_COMPLETE
    || kind == CLIPBOARD_FILES_COMPLETE || kind == CLIPBOARD_RESOURCES_COMPLETE
    || kind == RESOURCE_DATA_COMPLETE || kind == RESOURCE_COMMIT_COMPLETE
    || kind == RESOURCE_CACHE_READY || kind == RESOURCE_CACHE_LOAD_FAILED
    || kind == SENSOR_PERMISSION_COMPLETE || kind == HTTP_COMPLETE || kind == PLUGIN_COMPLETE
    || kind == NOTIFICATION_DELIVERED || kind == NOTIFICATION_FAILED
  }

  predicate IsTerminal(e: Event) {
    AlwaysTerminal(e.kind) || (e.requestId != INVALID_REQUEST && RequestTerminal(e.kind))
  }

  predicate IsReadiness(e: Event) {
    e.kind == HTTP_HEADERS || e.kind == HTTP_DATA_AVAILABLE || e.kind == FILE_WATCH_READY
  }

  predicate IsOverflow(e: Event) {
    e.kind == FILE_WATCH_OVERFLOW
  }

  predicate IsCoalescible(e: Event) {
    || e.kind == WINDOW_RESIZE || e.kind == WINDOW_FRAMEBUFFER_RESIZE || e.kind == WINDOW_MOVE
    || e.kind == POINTER_MOVE || e.kind == SURFACE_RESIZE || e.kind == JOYSTICK_AXIS
    || e.kind == GAMEPAD_AXIS || e.kind == DEVICE_ORIENTATION_CHANGED
    || e.kind == DISPLAY_ORIENTATION_CHANGED || e.kind == CLIPBOARD_CHANGED
    || e.kind == FILE_CHANGED || IsInterleaved(e)
  }

  /** Kinds whose producers interleave, so that a replacement is looked for in the whole queue. */
  predicate IsInterleaved(e: Event) {
    e.kind == SENSOR_UPDATE || e.kind == TASK_PROGRESS
  }

  /** Completions and readiness records: the events the queue promises never to lose. */
  predicate IsMandatory(e: Event) {
    IsTerminal(e) || IsReadiness(e)
  }

  predicate IsOrdinary(e: Event) {
    !IsMandatory(e) && !IsOverflow(e)
  }

  lemma ClassesAreDisjoint(e: Event)
    ensures !(IsTerminal(e) && IsReadiness(e))
    ensures IsOverflow(e) ==> !IsMandatory(e)
    ensures IsCoalescible(e) ==> IsOrdinary(e)
  {
  }

  predicate SameReadinessTarget(a: Event, b: Event) {
    a.kind == b.kind && a.source == b.source && a.requestId == b.requestId
  }

  // ----- nk_file_changed_event: seven words, then the strings -----

  const FILE_HEADER_SIZE := 28
  const FILE_CHANGE_ADDED := 1
  const FILE_CHANGE_MODIFIED := 3

  /** The payload bytes the header names as the path; `None` when the event can never be merged. */
  datatype MergePath = NotMergeable | MergePath(path: seq<byte>)

  function FileMergePath(data: seq<byte>): MergePath {
    if |data| < FILE_HEADER_SIZE then NotMergeable
    else
      var change := DecodeWord(data, 0);
      var offset := DecodeWord(data, 12);
      var length := DecodeWord(data, 16);
      if change != FILE_CHANGE_MODIFIED || offset > |data| || length > |data| - offset then NotMergeable
      else MergePath(data[offset..offset + length])
  }

  /** `same_coalescing_target`, branch by branch. */
  predicate SameTarget(a: Event, b: Event) {
    if a.kind != b.kind || a.source != b.source then false
    else if a.kind == CLIPBOARD_CHANGED then true
    else if a.kind == FILE_CHANGED then SameFile(a.data, b.data)
    else if a.kind != JOYSTICK_AXIS && a.kind != GAMEPAD_AXIS then true
    else if |a.data| < WORD_SIZE || |b.data| < WORD_SIZE then false
    else DecodeWord(a.data, 0) == DecodeWord(b.data, 0)
  }

  predicate SameFile(a: seq<byte>, b: seq<byte>) {
    if |a| < FILE_HEADER_SIZE || |b| < FILE_HEADER_SIZE then false
    else if || DecodeWord(a, 0) != FILE_CHANGE_MODIFIED || DecodeWord(b, 0) != FILE_CHANGE_MODIFIED
            || DecodeWord(a, 16) != DecodeWord(b, 16)
            || DecodeWord(a, 12) > |a| || DecodeWord(b, 12) > |b|
            || DecodeWord(a, 16) > |a| - DecodeWord(a, 12)
            || DecodeWord(b, 16) > |b| - DecodeWord(b, 12) then false
    else
      a[DecodeWord(a, 12)..DecodeWord(a, 12) + DecodeWord(a, 16)]
      == b[DecodeWord(b, 12)..DecodeWord(b, 12) + DecodeWord(b, 16)]
  }

  /** What an event overwrites when a consumer keeps only the latest value of each target. */
  datatype Target =
    | NoTarget
    | OfSource(kind: nat, source: nat)
    | OfAxis(kind: nat, source: nat, axis: uint32)
    | OfFile(source: nat, path: seq<byte>)

  function TargetOf(e: Event): Target {
    if !IsCoalescible(e) then NoTarget
    else if e.kind == FILE_CHANGED then
      match FileMergePath(e.data)
      case NotMergeable => NoTarget
      case MergePath(path) => OfFile(e.source, path)
    else if e.kind == JOYSTICK_AXIS || e.kind == GAMEPAD_AXIS then
      if |e.data| < WORD_SIZE then NoTarget else OfAxis(e.kind, e.source, DecodeWord(e.data, 0))
    else OfSource(e.kind, e.source)
  }

  /** Replacement is an equivalence on the coalescible events that name a target at all: two of them
      may be merged exactly when they name the same one. */
  lemma SameTargetIsTargetEquality(a: Event, b: Event)
    requires IsCoalescible(a) && IsCoalescible(b)
    ensures SameTarget(a, b) <==> TargetOf(a) == TargetOf(b) != NoTarget
  {
    if a.kind == FILE_CHANGED && b.kind == FILE_CHANGED {
      SameFileIsPathEquality(a.data, b.data);
    }
  }

  lemma SameFileIsPathEquality(a: seq<byte>, b: seq<byte>)
    ensures SameFile(a, b) <==> FileMergePath(a) == FileMergePath(b) != NotMergeable
  {
    if FileMergePath(a).MergePath? && FileMergePath(b).MergePath? && FileMergePath(a) == FileMergePath(b) {
      assert |FileMergePath(a).path| == DecodeWord(a, 16);
      assert |FileMergePath(b).path| == DecodeWord(b, 16);
    }
  }
}
