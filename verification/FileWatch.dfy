/** File-change payloads: how they are packed, and when the queue may merge two of them. */
module FileWatch {
  import opened Bytes
  import opened Events

  datatype FileChange = FileChange(change: uint32, item: uint32, flags: uint32, path: seq<byte>, oldPath: seq<byte>)

  /** What the packer relies on: offsets fit their 32-bit fields, and an old path that comes without a path, which
      it places from byte 1 on, is long enough for the buffer to hold the header. */
  predicate Packable(c: FileChange) {
    && FILE_HEADER_SIZE + |c.path| + 1 + |c.oldPath| + 1 < 0x1_0000_0000
    && (OldPathAlone(c) ==> |c.oldPath| + 2 >= FILE_HEADER_SIZE)
  }

  predicate OldPathAlone(c: FileChange) {
    c.path == [] && c.oldPath != []
  }

  /** A NUL-terminated string at an offset, absent when the offset is zero. */
  predicate HasString(data: seq<byte>, offset: uint32, length: uint32, text: seq<byte>) {
    && length == |text|
    && if text == [] then offset == 0
       else
         && FILE_HEADER_SIZE <= offset && offset + length < |data|
         && data[offset..offset + length] == text && data[offset + length] == 0
  }

  /** The payload a consumer of `nk_file_changed_event` reads back as `c`. */
  predicate Describes(data: seq<byte>, c: FileChange) {
    && |data| >= FILE_HEADER_SIZE
    && DecodeWord(data, 0) == c.change && DecodeWord(data, 4) == c.item && DecodeWord(data, 8) == c.flags
    && HasString(data, DecodeWord(data, 12), DecodeWord(data, 16), c.path)
    && HasString(data, DecodeWord(data, 20), DecodeWord(data, 24), c.oldPath)
  }

  function Header(c: FileChange, pathOffset: uint32, oldOffset: uint32): (r: seq<byte>)
    requires Packable(c)
    ensures |r| == FILE_HEADER_SIZE
  {
    EncodeWord(c.change) + EncodeWord(c.item) + EncodeWord(c.flags)
    + EncodeWord(pathOffset) + EncodeWord(|c.path|) + EncodeWord(oldOffset) + EncodeWord(|c.oldPath|)
  }

  lemma HeaderWords(data: seq<byte>, c: FileChange, pathOffset: uint32, oldOffset: uint32)
    requires Packable(c) && |data| >= FILE_HEADER_SIZE
    requires data[..FILE_HEADER_SIZE] == Header(c, pathOffset, oldOffset)
    ensures DecodeWord(data, 0) == c.change && DecodeWord(data, 4) == c.item && DecodeWord(data, 8) == c.flags
    ensures DecodeWord(data, 12) == pathOffset && DecodeWord(data, 16) == |c.path|
    ensures DecodeWord(data, 20) == oldOffset && DecodeWord(data, 24) == |c.oldPath|
  {
    var h := Header(c, pathOffset, oldOffset);
    assert data[0..4] == h[0..4] && data[4..8] == h[4..8] && data[8..12] == h[8..12];
    assert data[12..16] == h[12..16] && data[16..20] == h[16..20];
    assert data[20..24] == h[20..24] && data[24..28] == h[24..28];
    assert h[0..4] == EncodeWord(c.change) && h[4..8] == EncodeWord(c.item) && h[8..12] == EncodeWord(c.flags);
    assert h[12..16] == EncodeWord(pathOffset) && h[16..20] == EncodeWord(|c.path|);
    assert h[20..24] == EncodeWord(oldOffset) && h[24..28] == EncodeWord(|c.oldPath|);
    DecodeEncodedWord(data, 0, c.change);
    DecodeEncodedWord(data, 4, c.item);
    DecodeEncodedWord(data, 8, c.flags);
    DecodeEncodedWord(data, 12, pathOffset);
    DecodeEncodedWord(data, 16, |c.path|);
    DecodeEncodedWord(data, 20, oldOffset);
    DecodeEncodedWord(data, 24, |c.oldPath|);
  }

  /** `file_changed_payload`. The payload reads back exactly if no old path came without a path. */
  method Payload(c: FileChange) returns (data: seq<byte>)
    requires Packable(c)
    ensures Describes(data, c) <==> !OldPathAlone(c)
    ensures |data| == if OldPathAlone(c) then |c.oldPath| + 2
                      else FILE_HEADER_SIZE + (if c.path == [] then 0 else |c.path| + 1)
                           + (if c.oldPath == [] then 0 else |c.oldPath| + 1)
  {
    var pathOffset: uint32 := if c.path == [] then 0 else FILE_HEADER_SIZE;
    var oldOffset: uint32 := if c.oldPath == [] then 0 else pathOffset + |c.path| + 1;
    var size := FILE_HEADER_SIZE;
    if c.path != [] {
      size := pathOffset + |c.path| + 1;
    }
    if c.oldPath != [] {
      size := oldOffset + |c.oldPath| + 1;
    }
    ghost var header := Header(c, pathOffset, oldOffset);
    ghost var path := if c.path == [] then [] else c.path + [0];
    data := Zeros(size);
    data := Splice(data, 0, Header(c, pathOffset, oldOffset));
    if c.path != [] {
      data := Splice(data, pathOffset, c.path);
    }
    ghost var rest := if c.oldPath == [] then 0 else |c.oldPath| + 1;
    assert !OldPathAlone(c) ==> data == header + path + Zeros(rest);
    if c.oldPath != [] {
      data := Splice(data, oldOffset, c.oldPath);
    }
    if OldPathAlone(c) {
      TooShort(data, c);
    } else {
      assert data == header + path + (if c.oldPath == [] then [] else c.oldPath + [0]);
      Describing(data, c, pathOffset, oldOffset);
    }
  }

  /** No payload of that size has room for the old path behind its header. */
  lemma TooShort(data: seq<byte>, c: FileChange)
    requires OldPathAlone(c) && |data| == |c.oldPath| + 2
    ensures !Describes(data, c)
  {
  }

  lemma Describing(data: seq<byte>, c: FileChange, pathOffset: uint32, oldOffset: uint32)
    requires Packable(c) && !OldPathAlone(c)
    requires pathOffset == if c.path == [] then 0 else FILE_HEADER_SIZE
    requires oldOffset == if c.oldPath == [] then 0 else pathOffset + |c.path| + 1
    requires data == Header(c, pathOffset, oldOffset) + (if c.path == [] then [] else c.path + [0])
                     + (if c.oldPath == [] then [] else c.oldPath + [0])
    ensures Describes(data, c)
  {
    hide Header;
    assert data[..FILE_HEADER_SIZE] == Header(c, pathOffset, oldOffset);
    HeaderWords(data, c, pathOffset, oldOffset);
    if c.path != [] {
      assert data[pathOffset..pathOffset + |c.path|] == c.path;
    }
    if c.oldPath != [] {
      assert data[oldOffset..oldOffset + |c.oldPath|] == c.oldPath;
    }
  }

  /** Two file changes of one watcher merge in the queue exactly when both report a modification of the
      same path, whatever their items, flags and old paths. */
  lemma MergeExactlyModificationsOfOnePath(a: Event, c: FileChange, b: Event, d: FileChange)
    requires a.kind == FILE_CHANGED && b.kind == FILE_CHANGED
    requires Describes(a.data, c) && Describes(b.data, d)
    ensures SameTarget(a, b) <==>
            && a.source == b.source && c.path == d.path
            && c.change == FILE_CHANGE_MODIFIED && d.change == FILE_CHANGE_MODIFIED
  {
    MergePathOf(a.data, c);
    MergePathOf(b.data, d);
    SameTargetIsTargetEquality(a, b);
  }

  lemma MergePathOf(data: seq<byte>, c: FileChange)
    requires Describes(data, c)
    ensures FileMergePath(data) == if c.change == FILE_CHANGE_MODIFIED then MergePath(c.path) else NotMergeable
  {
    if c.path == [] {
      assert data[0..0] == c.path;
    }
  }

  const ITEM_UNKNOWN := 3
  const FLAG_RESCAN_REQUIRED := 1
  const FLAG_OVERFLOW := 2

  /** `file_watch_overflow_event`: missed changes of `source`, with the payload of a change without paths. */
  function OverflowEvent(source: nat): (e: Event)
    ensures IsOverflow(e) && e.source == source
    ensures Describes(e.data, OverflowChange())
  {
    var data := Header(OverflowChange(), 0, 0);
    HeaderWords(data, OverflowChange(), 0, 0);
    Event(FILE_WATCH_OVERFLOW, source, 0, 0, 0, 0, data, 0)
  }

  function OverflowChange(): FileChange {
    FileChange(FILE_CHANGE_MODIFIED, ITEM_UNKNOWN, FLAG_OVERFLOW + FLAG_RESCAN_REQUIRED, [], [])
  }

  const ITEM_DIRECTORY := 2

  /** `file_watch_ready_event`: `registration` is served from now on, told with the directory it watches. */
  method ReadyEvent(source: nat, path: seq<byte>, registration: nat) returns (e: Event)
    requires Packable(ReadyChange(path))
    ensures IsReadiness(e) && e.source == source && e.requestId == registration
    ensures Describes(e.data, ReadyChange(path)) && FileMergePath(e.data) == NotMergeable
  {
    var data := Payload(ReadyChange(path));
    MergePathOf(data, ReadyChange(path));
    e := Event(FILE_WATCH_READY, source, 0, registration, 0, 0, data, 0);
  }

  function ReadyChange(path: seq<byte>): FileChange {
    FileChange(FILE_CHANGE_ADDED, ITEM_DIRECTORY, 0, path, [])
  }
}
