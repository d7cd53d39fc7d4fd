/** Resource lists packed into one byte buffer, alone or inside a share or drop payload, and read back. */
module ResourcePayload {
  import opened Bytes
  import opened Options

  const LIST_SIZE := 16
  const ITEM_SIZE := 16
  const SHARE_SIZE := 16
  const DROP_SIZE := 32

  /** An empty string stands for an absent one. */
  datatype Resource = Resource(flags: uint32, uri: seq<byte>, mime: seq<byte>, name: seq<byte>)

  datatype Text = Absent | Present(bytes: seq<byte>)

  datatype View = View(flags: uint32, uri: seq<byte>, mime: Text, name: Text)

  datatype Carrier = Plain | Share | Drop

  // ----- reading -----

  function StringView(bytes: seq<byte>, offset: uint32, minimum: nat): Option<Text> {
    if offset == 0 then Some(Absent)
    else if offset < minimum || offset >= |bytes| then None
    else
      var end := FirstNul(bytes, offset);
      if end == |bytes| || end - offset > 0xffff_ffff then None else Some(Present(bytes[offset..end]))
  }

  /** `nk_resource_event_item` once the list's offset is known. */
  function ItemAt(bytes: seq<byte>, list: nat, index: uint32): Option<View> {
    if list > |bytes| || LIST_SIZE > |bytes| - list then None
    else
      var count: nat, items: nat, strings: nat :=
        DecodeWord(bytes, list + 4), DecodeWord(bytes, list + 8), DecodeWord(bytes, list + 12);
      var table := count * ITEM_SIZE;
      if index >= count || items < list + LIST_SIZE || items > |bytes| || table > |bytes| - items
         || strings < items + table || strings > |bytes| then None
      else
        var at := items + index * ITEM_SIZE;
        var uri := StringView(bytes, DecodeWord(bytes, at + 4), strings);
        var mime := StringView(bytes, DecodeWord(bytes, at + 8), strings);
        var name := StringView(bytes, DecodeWord(bytes, at + 12), strings);
        if uri.None? || uri.value.Absent? || uri.value.bytes == [] || mime.None? || name.None? then None
        else Some(View(DecodeWord(bytes, at), uri.value.bytes, mime.value, name.value))
  }

  function EventItem(carrier: Carrier, bytes: seq<byte>, index: uint32): Option<View> {
    if |bytes| < LIST_SIZE then None
    else if carrier.Plain? then ItemAt(bytes, 0, index)
    else if |bytes| < (if carrier.Share? then SHARE_SIZE else DROP_SIZE) then None
    else ItemAt(bytes, DecodeWord(bytes, 0), index)
  }

  /** The text or subject of a share payload. */
  function ShareString(bytes: seq<byte>, subject: bool): Option<Text> {
    if |bytes| < SHARE_SIZE then None
    else StringView(bytes, DecodeWord(bytes, if subject then 8 else 4), SHARE_SIZE)
  }

  function DropText(bytes: seq<byte>): Option<Text> {
    if |bytes| < DROP_SIZE then None else StringView(bytes, DecodeWord(bytes, 4), DROP_SIZE)
  }

  // ----- what a reader is meant to see -----

  function TextOf(text: seq<byte>): Text {
    if text == [] then Absent else Present(UpToNul(text))
  }

  function ViewOf(r: Resource): Option<View> {
    if UpToNul(r.uri) == [] then None else Some(View(r.flags, UpToNul(r.uri), TextOf(r.mime), TextOf(r.name)))
  }

  function Whole(text: seq<byte>): Text {
    if text == [] then Absent else Present(text)
  }

  /** A resource is read back unchanged exactly when it has a URI and no string of it holds a NUL. */
  lemma ReadUnchangedExactly(r: Resource)
    ensures ViewOf(r) == Some(View(r.flags, r.uri, Whole(r.mime), Whole(r.name))) <==>
            r.uri != [] && 0 !in r.uri && 0 !in r.mime && 0 !in r.name
  {
    forall text | text in {r.uri, r.mime, r.name} ensures UpToNul(text) == text <==> 0 !in text {
      if 0 !in text {
        assert text[..|text|] == text;
      } else {
        assert FirstNul(text, 0) < |text|;
      }
    }
  }

  // ----- the packed form -----

  /** `inner` is what `bytes` holds from `at` on. */
  predicate Holds(bytes: seq<byte>, at: nat, inner: seq<byte>) {
    at + |inner| <= |bytes| && forall i {:trigger inner[i]} :: 0 <= i < |inner| ==> bytes[at + i] == inner[i]
  }

  lemma HoldsInside(bytes: seq<byte>, at: nat, outer: seq<byte>, inAt: nat, inner: seq<byte>)
    requires Holds(bytes, at, outer) && Holds(outer, inAt, inner)
    ensures Holds(bytes, at + inAt, inner)
  {
    forall i | 0 <= i < |inner| ensures bytes[at + inAt + i] == inner[i] {
      assert outer[inAt + i] == inner[i];
    }
  }

  lemma HoldsEnds(left: seq<byte>, right: seq<byte>)
    ensures Holds(left + right, 0, left) && Holds(left + right, |left|, right)
  {
  }

  function CString(text: seq<byte>): (r: seq<byte>) {
    if text == [] then [] else text + [0]
  }

  function StringsOf(r: Resource): seq<byte> {
    CString(r.uri) + CString(r.mime) + CString(r.name)
  }

  /** The strings of the first `i` resources. */
  function Strings(rs: seq<Resource>, i: nat): seq<byte>
    requires i <= |rs|
  {
    if i == 0 then [] else Strings(rs, i - 1) + StringsOf(rs[i - 1])
  }

  function StringsOffset(count: nat): nat {
    LIST_SIZE + count * ITEM_SIZE
  }

  function ListSize(rs: seq<Resource>): nat {
    StringsOffset(|rs|) + |Strings(rs, |rs|)|
  }

  /** Field 0 is the URI, 1 the MIME type, 2 the display name. */
  function Field(r: Resource, f: nat): seq<byte> {
    if f == 0 then r.uri else if f == 1 then r.mime else r.name
  }

  /** Where a field of `r` starts, `r`'s own strings starting at `cursor`. */
  function FieldStart(r: Resource, cursor: nat, f: nat): nat {
    if f == 0 then cursor
    else if f == 1 then cursor + |CString(r.uri)|
    else cursor + |CString(r.uri)| + |CString(r.mime)|
  }

  /** The offset an item stores for a field once its list has been moved by `base`: an absent URI is moved
      like a present one, the other fields stay 0 when absent. */
  function FieldOffset(r: Resource, cursor: nat, base: nat, f: nat): nat {
    if Field(r, f) != [] then base + FieldStart(r, cursor, f) else if f == 0 then base else 0
  }

  function Words4(a: uint32, b: uint32, c: uint32, d: uint32): (r: seq<byte>)
    ensures |r| == 16
  {
    EncodeWord(a) + EncodeWord(b) + EncodeWord(c) + EncodeWord(d)
  }

  lemma Words4Decode(bytes: seq<byte>, at: nat, a: uint32, b: uint32, c: uint32, d: uint32)
    requires Holds(bytes, at, Words4(a, b, c, d))
    ensures DecodeWord(bytes, at) == a && DecodeWord(bytes, at + 4) == b
    ensures DecodeWord(bytes, at + 8) == c && DecodeWord(bytes, at + 12) == d
  {
    HoldsInside(bytes, at, Words4(a, b, c, d), 0, EncodeWord(a));
    HoldsInside(bytes, at, Words4(a, b, c, d), 4, EncodeWord(b));
    HoldsInside(bytes, at, Words4(a, b, c, d), 8, EncodeWord(c));
    HoldsInside(bytes, at, Words4(a, b, c, d), 12, EncodeWord(d));
    DecodeWordAt(bytes, at, a);
    DecodeWordAt(bytes, at + 4, b);
    DecodeWordAt(bytes, at + 8, c);
    DecodeWordAt(bytes, at + 12, d);
  }

  function ItemBytes(r: Resource, cursor: nat, base: nat): (s: seq<byte>)
    requires base + cursor + |StringsOf(r)| < 0x1_0000_0000
    ensures |s| == ITEM_SIZE
  {
    Words4(r.flags, FieldOffset(r, cursor, base, 0), FieldOffset(r, cursor, base, 1), FieldOffset(r, cursor, base, 2))
  }

  /** Where the strings of resource `i` start in its list. */
  function CursorOf(rs: seq<Resource>, i: nat): nat
    requires i <= |rs|
  {
    StringsOffset(|rs|) + |Strings(rs, i)|
  }

  /** The first `i` items. */
  function Table(rs: seq<Resource>, i: nat, base: nat): (s: seq<byte>)
    requires i <= |rs| && base + CursorOf(rs, i) < 0x1_0000_0000
    ensures |s| == ITEM_SIZE * i
  {
    if i == 0 then [] else Table(rs, i - 1, base) + ItemBytes(rs[i - 1], CursorOf(rs, i - 1), base)
  }

  function ListHeader(accepted: bool, count: nat, base: nat): (s: seq<byte>)
    requires base + StringsOffset(count) < 0x1_0000_0000
    ensures |s| == LIST_SIZE
  {
    Words4(if accepted then 1 else 0, count, base + LIST_SIZE, base + StringsOffset(count))
  }

  /** A list whose first byte is byte `base` of its payload. */
  function ListBytes(accepted: bool, rs: seq<Resource>, base: nat): (s: seq<byte>)
    requires base + ListSize(rs) < 0x1_0000_0000
    ensures |s| == ListSize(rs)
  {
    ListHeader(accepted, |rs|, base) + Table(rs, |rs|, base) + Strings(rs, |rs|)
  }

  // ----- reading the packed form -----

  lemma {:induction false} StringsAt(rs: seq<Resource>, i: nat, n: nat)
    requires i < n <= |rs|
    ensures |Strings(rs, i)| + |StringsOf(rs[i])| <= |Strings(rs, n)|
    ensures Holds(Strings(rs, n), |Strings(rs, i)|, StringsOf(rs[i]))
  {
    hide Holds, StringsOf;
    HoldsEnds(Strings(rs, n - 1), StringsOf(rs[n - 1]));
    if i < n - 1 {
      StringsAt(rs, i, n - 1);
      HoldsInside(Strings(rs, n), 0, Strings(rs, n - 1), |Strings(rs, i)|, StringsOf(rs[i]));
    }
  }

  lemma {:induction false} TableAt(rs: seq<Resource>, i: nat, n: nat, base: nat)
    requires i < n <= |rs| && base + CursorOf(rs, n) < 0x1_0000_0000
    ensures CursorOf(rs, i) + |StringsOf(rs[i])| <= CursorOf(rs, n)
    ensures Holds(Table(rs, n, base), ITEM_SIZE * i, ItemBytes(rs[i], CursorOf(rs, i), base))
  {
    hide Holds, StringsOf, ItemBytes;
    StringsAt(rs, i, n);
    HoldsEnds(Table(rs, n - 1, base), ItemBytes(rs[n - 1], CursorOf(rs, n - 1), base));
    if i < n - 1 {
      TableAt(rs, i, n - 1, base);
      HoldsInside(Table(rs, n, base), 0, Table(rs, n - 1, base), ITEM_SIZE * i,
                  ItemBytes(rs[i], CursorOf(rs, i), base));
    }
  }

  lemma FieldAt(r: Resource, f: nat)
    requires f < 3
    ensures Holds(StringsOf(r), FieldStart(r, 0, f), CString(Field(r, f)))
  {
    hide Holds, CString;
    var uri, mime, name := CString(r.uri), CString(r.mime), CString(r.name);
    HoldsEnds(uri + mime, name);
    HoldsEnds(uri, mime);
    HoldsInside(uri + mime + name, 0, uri + mime, 0, uri);
    HoldsInside(uri + mime + name, 0, uri + mime, |uri|, mime);
  }

  lemma {:induction false} FirstNulIs(bytes: seq<byte>, from: nat, at: nat)
    requires from <= at < |bytes| && bytes[at] == 0
    requires forall j :: from <= j < at ==> bytes[j] != 0
    ensures FirstNul(bytes, from) == at
    decreases at - from
  {
    if from < at {
      FirstNulIs(bytes, from + 1, at);
    }
  }

  lemma CStringView(bytes: seq<byte>, offset: uint32, minimum: nat, text: seq<byte>)
    requires text != [] && 0 < offset && minimum <= offset && |bytes| < 0x1_0000_0000
    requires Holds(bytes, offset, CString(text))
    ensures StringView(bytes, offset, minimum) == Some(Present(UpToNul(text)))
  {
    var own := FirstNul(text, 0);
    var s := CString(text);
    assert bytes[offset + own] == s[own] == 0;
    forall i | 0 <= i < own ensures bytes[offset + i] == text[i] {
      assert s[i] == text[i];
    }
    forall j | offset <= j < offset + own ensures bytes[j] != 0 {
      assert bytes[offset + (j - offset)] == text[j - offset];
    }
    FirstNulIs(bytes, offset, offset + own);
    assert bytes[offset..offset + own] == text[..own];
  }

  /** What `bytes` must hold for a list to start at `base`. */
  predicate HoldsList(bytes: seq<byte>, base: nat, accepted: bool, rs: seq<Resource>) {
    && |bytes| < 0x1_0000_0000 && base + ListSize(rs) <= |bytes|
    && Holds(bytes, base, ListBytes(accepted, rs, base))
  }

  lemma ListParts(bytes: seq<byte>, base: nat, accepted: bool, rs: seq<Resource>)
    requires HoldsList(bytes, base, accepted, rs)
    ensures Holds(bytes, base, ListHeader(accepted, |rs|, base))
    ensures Holds(bytes, base + LIST_SIZE, Table(rs, |rs|, base))
    ensures Holds(bytes, base + StringsOffset(|rs|), Strings(rs, |rs|))
  {
    hide Holds, Strings, Table, StringsOf;
    var header, table, strings := ListHeader(accepted, |rs|, base), Table(rs, |rs|, base), Strings(rs, |rs|);
    HoldsEnds(header + table, strings);
    HoldsEnds(header, table);
    HoldsInside(bytes, base, header + table + strings, 0, header + table);
    HoldsInside(bytes, base, header + table, 0, header);
    HoldsInside(bytes, base, header + table, LIST_SIZE, table);
    HoldsInside(bytes, base, header + table + strings, StringsOffset(|rs|), strings);
  }

  lemma FieldInBytes(bytes: seq<byte>, base: nat, accepted: bool, rs: seq<Resource>, i: nat, f: nat)
    requires HoldsList(bytes, base, accepted, rs) && i < |rs| && f < 3
    ensures Holds(bytes, base + FieldStart(rs[i], CursorOf(rs, i), f), CString(Field(rs[i], f)))
  {
    hide Holds, StringsOf, ItemBytes, Table, Strings;
    var r, strings := rs[i], base + StringsOffset(|rs|);
    ListParts(bytes, base, accepted, rs);
    StringsAt(rs, i, |rs|);
    HoldsInside(bytes, strings, Strings(rs, |rs|), |Strings(rs, i)|, StringsOf(r));
    FieldAt(r, f);
    HoldsInside(bytes, base + CursorOf(rs, i), StringsOf(r), FieldStart(r, 0, f), CString(Field(r, f)));
    assert FieldStart(r, CursorOf(rs, i), f) == CursorOf(rs, i) + FieldStart(r, 0, f);
  }

  lemma FieldView(bytes: seq<byte>, base: nat, accepted: bool, rs: seq<Resource>, i: nat, f: nat)
    requires HoldsList(bytes, base, accepted, rs) && i < |rs| && f < 3
    ensures FieldOffset(rs[i], CursorOf(rs, i), base, f) < 0x1_0000_0000
    ensures var view := StringView(bytes, FieldOffset(rs[i], CursorOf(rs, i), base, f), base + StringsOffset(|rs|));
            && (Field(rs[i], f) != [] || f > 0 ==> view == Some(TextOf(Field(rs[i], f))))
            && (Field(rs[i], f) == [] && f == 0 ==> view == if base == 0 then Some(Absent) else None)
  {
    hide StringsOf, ListBytes, Strings, UpToNul;
    FieldInBytes(bytes, base, accepted, rs, i, f);
    if Field(rs[i], f) != [] {
      CStringView(bytes, base + FieldStart(rs[i], CursorOf(rs, i), f), base + StringsOffset(|rs|), Field(rs[i], f));
    }
  }

  lemma MovedOffset(r: Resource, cursor: nat, base: nat, f: nat)
    requires f < 3 && cursor > 0
    ensures FieldOffset(r, cursor, base, f) ==
            (var plain := FieldOffset(r, cursor, 0, f); if f == 0 || plain != 0 then plain + base else 0)
    ensures FieldOffset(r, cursor, base, f) <= base + cursor + |StringsOf(r)|
  {
  }

  lemma ItemWords(bytes: seq<byte>, base: nat, accepted: bool, rs: seq<Resource>, i: nat)
    requires HoldsList(bytes, base, accepted, rs) && i < |rs|
    ensures base + LIST_SIZE + ITEM_SIZE * i + ITEM_SIZE <= base + StringsOffset(|rs|) <= |bytes|
    ensures var at, cursor := base + LIST_SIZE + ITEM_SIZE * i, CursorOf(rs, i);
            && DecodeWord(bytes, at) == rs[i].flags
            && DecodeWord(bytes, at + 4) == FieldOffset(rs[i], cursor, base, 0)
            && DecodeWord(bytes, at + 8) == FieldOffset(rs[i], cursor, base, 1)
            && DecodeWord(bytes, at + 12) == FieldOffset(rs[i], cursor, base, 2)
  {
    hide Holds, Words4, Table, Strings, ListBytes, FieldOffset, StringsOf;
    var r, cursor := rs[i], CursorOf(rs, i);
    MovedOffset(r, cursor, base, 0);
    MovedOffset(r, cursor, base, 1);
    MovedOffset(r, cursor, base, 2);
    ListParts(bytes, base, accepted, rs);
    TableAt(rs, i, |rs|, base);
    HoldsInside(bytes, base + LIST_SIZE, Table(rs, |rs|, base), ITEM_SIZE * i, ItemBytes(r, cursor, base));
    Words4Decode(bytes, base + LIST_SIZE + ITEM_SIZE * i, r.flags, FieldOffset(r, cursor, base, 0),
                 FieldOffset(r, cursor, base, 1), FieldOffset(r, cursor, base, 2));
  }

  lemma HeaderWords(bytes: seq<byte>, base: nat, accepted: bool, rs: seq<Resource>)
    requires HoldsList(bytes, base, accepted, rs)
    ensures base + StringsOffset(|rs|) <= |bytes|
    ensures DecodeWord(bytes, base) == (if accepted then 1 else 0) && DecodeWord(bytes, base + 4) == |rs|
    ensures DecodeWord(bytes, base + 8) == base + LIST_SIZE
    ensures DecodeWord(bytes, base + 12) == base + StringsOffset(|rs|)
  {
    hide Holds, Words4, Table, Strings, ListBytes;
    ListParts(bytes, base, accepted, rs);
    Words4Decode(bytes, base, if accepted then 1 else 0, |rs|, base + LIST_SIZE, base + StringsOffset(|rs|));
  }

  /** Reading any index of a packed list, wherever the list lies in its payload, gives that resource. */
  lemma ListReadsBack(bytes: seq<byte>, base: nat, accepted: bool, rs: seq<Resource>, index: uint32)
    requires HoldsList(bytes, base, accepted, rs)
    ensures ItemAt(bytes, base, index) == if index < |rs| then ViewOf(rs[index]) else None
  {
    hide HoldsList, DecodeWord, StringView, FieldOffset, Strings;
    HeaderWords(bytes, base, accepted, rs);
    if index < |rs| {
      ItemWords(bytes, base, accepted, rs, index);
      FieldView(bytes, base, accepted, rs, index, 0);
      FieldView(bytes, base, accepted, rs, index, 1);
      FieldView(bytes, base, accepted, rs, index, 2);
    }
  }

  // ----- bounds -----

  lemma {:induction false} StringsGrow(rs: seq<Resource>, i: nat, j: nat)
    requires i <= j <= |rs|
    ensures |Strings(rs, i)| <= |Strings(rs, j)|
  {
    if i < j {
      StringsGrow(rs, i, j - 1);
    }
  }

  /** The stored strings, each with its NUL, lie inside the list after the table and do not overlap. */
  lemma StringsAreDisjoint(rs: seq<Resource>, base: nat, i: nat, f: nat, j: nat, g: nat)
    requires i < |rs| && f < 3 && j < |rs| && g < 3 && Field(rs[i], f) != [] && Field(rs[j], g) != []
    ensures var at := FieldOffset(rs[i], CursorOf(rs, i), base, f);
            var next := FieldOffset(rs[j], CursorOf(rs, j), base, g);
            && base + StringsOffset(|rs|) <= at && at + |Field(rs[i], f)| + 1 <= base + ListSize(rs)
            && (i < j || (i == j && f < g) ==> at + |Field(rs[i], f)| + 1 <= next)
  {
    hide Holds, Strings;
    StringsAt(rs, i, |rs|);
    StringsAt(rs, j, |rs|);
    if i < j {
      StringsAt(rs, i, i + 1);
      StringsGrow(rs, i + 1, j);
    }
  }

  // ----- packing -----

  /** The packer reserves a byte for the NUL of every URI but stores none for an empty URI. */
  function Slack(rs: seq<Resource>, i: nat): nat
    requires i <= |rs|
  {
    if i == 0 then 0 else Slack(rs, i - 1) + if rs[i - 1].uri == [] then 1 else 0
  }

  function PackedSize(rs: seq<Resource>): nat {
    ListSize(rs) + Slack(rs, |rs|)
  }

  /** What a reader of any payload around `rs` gets. */
  function Expected(rs: seq<Resource>, index: uint32): Option<View> {
    if index < |rs| then ViewOf(rs[index]) else None
  }

  /** Copies a string and its NUL to the cursor; an empty string is neither stored nor given an offset. */
  method Append(buffer: seq<byte>, cursor: nat, value: seq<byte>, ghost left: seq<byte>, ghost free: nat)
      returns (r: seq<byte>, next: nat, offset: uint32)
    requires buffer == left + Zeros(free) && |left| == cursor
    requires |CString(value)| <= free && cursor + free < 0x1_0000_0000
    ensures r == left + CString(value) + Zeros(free - |CString(value)|)
    ensures next == cursor + |CString(value)| && offset == if value == [] then 0 else cursor
  {
    r, next, offset := buffer, cursor, 0;
    if value != [] {
      offset := cursor;
      r := Splice(r, cursor, value + [0]);
      next := cursor + |value| + 1;
    }
    assert r == left + CString(value) + Zeros(free - |CString(value)|);
  }

  lemma FillItem(left: seq<byte>, k: nat, right: seq<byte>, item: seq<byte>)
    requires k > 0 && |item| == ITEM_SIZE
    ensures Splice(left + Zeros(k * ITEM_SIZE) + right, |left|, item)
            == (left + item) + Zeros((k - 1) * ITEM_SIZE) + right
  {
    assert Zeros(k * ITEM_SIZE) == Zeros(ITEM_SIZE) + Zeros((k - 1) * ITEM_SIZE);
  }

  method StringSize(rs: seq<Resource>) returns (size: nat)
    ensures size == |Strings(rs, |rs|)| + Slack(rs, |rs|)
  {
    size := 0;
    for i := 0 to |rs|
      invariant size == |Strings(rs, i)| + Slack(rs, i)
    {
      var r := rs[i];
      size := size + |r.uri| + 1;
      if r.mime != [] {
        size := size + |r.mime| + 1;
      }
      if r.name != [] {
        size := size + |r.name| + 1;
      }
    }
  }

  /** One resource's three strings, and the item that points at them. */
  method AppendStrings(buffer: seq<byte>, cursor: nat, r: Resource, ghost left: seq<byte>, ghost free: nat)
      returns (out: seq<byte>, next: nat, item: seq<byte>)
    requires buffer == left + Zeros(free) && |left| == cursor
    requires |StringsOf(r)| <= free && cursor + free < 0x1_0000_0000
    ensures out == left + StringsOf(r) + Zeros(free - |StringsOf(r)|)
    ensures next == cursor + |StringsOf(r)| && item == ItemBytes(r, cursor, 0)
  {
    ghost var l0, f0 := left, free;
    var uri, mime, name;
    out, next, uri := Append(buffer, cursor, r.uri, l0, f0);
    l0, f0 := l0 + CString(r.uri), f0 - |CString(r.uri)|;
    out, next, mime := Append(out, next, r.mime, l0, f0);
    l0, f0 := l0 + CString(r.mime), f0 - |CString(r.mime)|;
    out, next, name := Append(out, next, r.name, l0, f0);
    assert l0 + CString(r.name) == left + StringsOf(r);
    item := Words4(r.flags, uri, mime, name);
  }

  /** The buffer once the first `i` resources are packed, `size` bytes being reserved for strings. */
  ghost function PackedUpTo(accepted: bool, rs: seq<Resource>, i: nat, size: nat): seq<byte>
    requires i <= |rs| && |Strings(rs, i)| <= size && StringsOffset(|rs|) + size < 0x1_0000_0000
  {
    ListHeader(accepted, |rs|, 0) + Table(rs, i, 0) + Zeros((|rs| - i) * ITEM_SIZE)
    + (Strings(rs, i) + Zeros(size - |Strings(rs, i)|))
  }

  method PackOne(buffer: seq<byte>, at: nat, cursor: nat, r: Resource,
                 ghost left: seq<byte>, ghost k: nat, ghost strings: seq<byte>, ghost free: nat)
      returns (data: seq<byte>, next: nat)
    requires k > 0 && |StringsOf(r)| <= free && cursor + free < 0x1_0000_0000
    requires |left| == at && cursor == at + k * ITEM_SIZE + |strings|
    requires buffer == left + Zeros(k * ITEM_SIZE) + (strings + Zeros(free))
    ensures data == left + ItemBytes(r, cursor, 0) + Zeros((k - 1) * ITEM_SIZE)
                    + (strings + StringsOf(r) + Zeros(free - |StringsOf(r)|))
    ensures next == cursor + |StringsOf(r)|
  {
    hide StringsOf, ItemBytes, Zeros, Splice;
    ghost var head := left + Zeros(k * ITEM_SIZE);
    ghost var last := Zeros(free - |StringsOf(r)|);
    Regroup(head, strings, [], Zeros(free));
    var item;
    data, next, item := AppendStrings(buffer, cursor, r, head + strings, free);
    Regroup(head, strings, StringsOf(r), last);
    FillItem(left, k, strings + StringsOf(r) + last, item);
    data := Splice(data, at, item);
  }

  lemma PackedNext(accepted: bool, rs: seq<Resource>, i: nat, size: nat)
    requires i < |rs| && |Strings(rs, i + 1)| <= size && StringsOffset(|rs|) + size < 0x1_0000_0000
    ensures PackedUpTo(accepted, rs, i + 1, size)
            == ListHeader(accepted, |rs|, 0) + Table(rs, i, 0) + ItemBytes(rs[i], CursorOf(rs, i), 0)
               + Zeros((|rs| - i - 1) * ITEM_SIZE)
               + (Strings(rs, i) + StringsOf(rs[i]) + Zeros(size - |Strings(rs, i)| - |StringsOf(rs[i])|))
  {
    hide StringsOf, ItemBytes, Zeros, ListHeader;
    Regroup(ListHeader(accepted, |rs|, 0), Table(rs, i, 0), ItemBytes(rs[i], CursorOf(rs, i), 0), []);
  }

  lemma Regroup(a: seq<byte>, b: seq<byte>, c: seq<byte>, d: seq<byte>)
    ensures a + b + c + d == a + (b + c + d) == a + (b + c) + d
    ensures c == [] ==> a + (b + d) == a + b + d
    ensures d == [] ==> a + b + c == a + (b + c)
  {
    assert c == [] ==> a + (b + d) == a + b + d;
  }

  lemma PackedNone(accepted: bool, rs: seq<Resource>, size: nat)
    requires StringsOffset(|rs|) + size < 0x1_0000_0000
    ensures Splice(Zeros(StringsOffset(|rs|) + size), 0, ListHeader(accepted, |rs|, 0))
            == PackedUpTo(accepted, rs, 0, size)
  {
  }

  lemma PackedAll(accepted: bool, rs: seq<Resource>, size: nat)
    requires size == |Strings(rs, |rs|)| + Slack(rs, |rs|) && StringsOffset(|rs|) + size < 0x1_0000_0000
    ensures PackedUpTo(accepted, rs, |rs|, size) == ListBytes(accepted, rs, 0) + Zeros(Slack(rs, |rs|))
  {
    hide ListHeader, Table, Strings;
    Regroup(ListHeader(accepted, |rs|, 0) + Table(rs, |rs|, 0), [], Strings(rs, |rs|), Zeros(Slack(rs, |rs|)));
  }

  /** `resource_payload`. */
  method ListPayload(accepted: bool, rs: seq<Resource>) returns (data: seq<byte>)
    requires PackedSize(rs) < 0x1_0000_0000
    ensures data == ListBytes(accepted, rs, 0) + Zeros(Slack(rs, |rs|))
    ensures forall index :: EventItem(Plain, data, index) == Expected(rs, index)
  {
    hide ListHeader, StringsOf, ItemBytes, EventItem, Expected, Splice, Zeros;
    var size := StringSize(rs);
    data := Zeros(StringsOffset(|rs|) + size);
    PackedNone(accepted, rs, size);
    data := Splice(data, 0, ListHeader(accepted, |rs|, 0));
    var cursor := StringsOffset(|rs|);
    for i := 0 to |rs|
      invariant |Strings(rs, i)| <= size && cursor == CursorOf(rs, i)
      invariant data == PackedUpTo(accepted, rs, i, size)
    {
      StringsAt(rs, i, |rs|);
      PackedNext(accepted, rs, i, size);
      data, cursor := PackOne(data, LIST_SIZE + i * ITEM_SIZE, cursor, rs[i],
                              ListHeader(accepted, |rs|, 0) + Table(rs, i, 0), |rs| - i,
                              Strings(rs, i), size - |Strings(rs, i)|);
    }
    PackedAll(accepted, rs, size);
    PlainReadsBack(data, accepted, rs);
  }

  lemma PlainReadsBack(data: seq<byte>, accepted: bool, rs: seq<Resource>)
    requires PackedSize(rs) < 0x1_0000_0000 && data == ListBytes(accepted, rs, 0) + Zeros(Slack(rs, |rs|))
    ensures forall index :: EventItem(Plain, data, index) == Expected(rs, index)
  {
    hide ItemAt;
    HoldsEnds(ListBytes(accepted, rs, 0), Zeros(Slack(rs, |rs|)));
    forall index ensures EventItem(Plain, data, index) == Expected(rs, index) {
      ListReadsBack(data, 0, accepted, rs, index);
    }
  }

  // ----- lists inside other payloads -----

  lemma SpliceHolds(buffer: seq<byte>, at: nat, source: seq<byte>)
    requires at + |source| <= |buffer|
    ensures Holds(Splice(buffer, at, source), at, source)
  {
  }

  /** A copy elsewhere leaves what was there. */
  lemma SpliceKeeps(buffer: seq<byte>, at: nat, source: seq<byte>, kept: nat, inner: seq<byte>)
    requires at + |source| <= |buffer| && Holds(buffer, kept, inner)
    requires kept + |inner| <= at || at + |source| <= kept
    ensures Holds(Splice(buffer, at, source), kept, inner)
  {
    forall i | 0 <= i < |inner| ensures Splice(buffer, at, source)[kept + i] == inner[i] {
    }
  }

  lemma HoldsJoins(bytes: seq<byte>, at: nat, left: seq<byte>, right: seq<byte>)
    requires Holds(bytes, at, left) && Holds(bytes, at + |left|, right)
    ensures Holds(bytes, at, left + right)
  {
    forall i | 0 <= i < |left + right| ensures bytes[at + i] == (left + right)[i] {
      if i >= |left| {
        assert right[i - |left|] == bytes[at + |left| + (i - |left|)];
      } else {
        assert left[i] == bytes[at + i];
      }
    }
  }

  /** One item moved by `prefix`: an absent URI moves like a present one. */
  method MoveItem(data: seq<byte>, at: nat, prefix: nat, ghost r: Resource, ghost cursor: nat) returns (item: seq<byte>)
    requires 0 < cursor && prefix + cursor + |StringsOf(r)| < 0x1_0000_0000
    requires Holds(data, at, ItemBytes(r, cursor, 0))
    ensures item == ItemBytes(r, cursor, prefix)
  {
    hide Words4, StringsOf, FieldOffset, Holds;
    MovedOffset(r, cursor, prefix, 0);
    MovedOffset(r, cursor, prefix, 1);
    MovedOffset(r, cursor, prefix, 2);
    ghost var uri0, mime0 := FieldOffset(r, cursor, 0, 0), FieldOffset(r, cursor, 0, 1);
    ghost var name0 := FieldOffset(r, cursor, 0, 2);
    MovedOffset(r, cursor, 0, 0);
    MovedOffset(r, cursor, 0, 1);
    MovedOffset(r, cursor, 0, 2);
    HoldsFits(data, at, ItemBytes(r, cursor, 0));
    Words4Decode(data, at, r.flags, uri0, mime0, name0);
    var uri := DecodeWord(data, at + 4) + prefix;
    var mime := DecodeWord(data, at + 8);
    var name := DecodeWord(data, at + 12);
    if mime != 0 {
      mime := mime + prefix;
    }
    if name != 0 {
      name := name + prefix;
    }
    item := Words4(DecodeWord(data, at), uri, mime, name);
  }

  lemma HoldsFits(bytes: seq<byte>, at: nat, inner: seq<byte>)
    requires Holds(bytes, at, inner)
    ensures at + |inner| <= |bytes|
  {
  }

  predicate SameFrom(a: seq<byte>, b: seq<byte>, from: nat) {
    |a| == |b| && forall i :: from <= i < |a| ==> a[i] == b[i]
  }

  lemma SameHolds(a: seq<byte>, b: seq<byte>, from: nat, at: nat, inner: seq<byte>)
    requires SameFrom(a, b, from) && from <= at && Holds(b, at, inner)
    ensures Holds(a, at, inner)
  {
    forall i | 0 <= i < |inner| ensures a[at + i] == inner[i] {
      assert b[at + i] == inner[i];
    }
  }

  lemma SpliceSameFrom(a: seq<byte>, b: seq<byte>, from: nat, source: seq<byte>)
    requires SameFrom(a, b, from) && from + |source| <= |a|
    ensures SameFrom(Splice(a, from, source), b, from + |source|)
  {
  }

  lemma PlainParts(packed: seq<byte>, accepted: bool, rs: seq<Resource>, i: nat)
    requires PackedSize(rs) < 0x1_0000_0000 && packed == ListBytes(accepted, rs, 0) + Zeros(Slack(rs, |rs|))
    requires i < |rs|
    ensures CursorOf(rs, i) + |StringsOf(rs[i])| <= ListSize(rs)
    ensures Holds(packed, LIST_SIZE + ITEM_SIZE * i, ItemBytes(rs[i], CursorOf(rs, i), 0))
  {
    hide Holds, ListBytes, ItemBytes, Table, StringsOf, Strings;
    HoldsEnds(ListBytes(accepted, rs, 0), Zeros(Slack(rs, |rs|)));
    ListParts(packed, 0, accepted, rs);
    TableAt(rs, i, |rs|, 0);
    HoldsInside(packed, LIST_SIZE, Table(rs, |rs|, 0), ITEM_SIZE * i, ItemBytes(rs[i], CursorOf(rs, i), 0));
  }

  method MoveHeader(packed: seq<byte>, prefix: nat, ghost accepted: bool, ghost rs: seq<Resource>)
      returns (data: seq<byte>)
    requires prefix + PackedSize(rs) < 0x1_0000_0000
    requires packed == ListBytes(accepted, rs, 0) + Zeros(Slack(rs, |rs|))
    ensures SameFrom(data, packed, LIST_SIZE) && Holds(data, 0, ListHeader(accepted, |rs|, prefix))
    ensures DecodeWord(packed, 4) == |rs|
  {
    hide Holds, ListBytes, Words4, Strings, Table, DecodeWord;
    HoldsEnds(ListBytes(accepted, rs, 0), Zeros(Slack(rs, |rs|)));
    HeaderWords(packed, 0, accepted, rs);
    var items := DecodeWord(packed, 8) + prefix;
    var strings := DecodeWord(packed, 12) + prefix;
    var header := Words4(DecodeWord(packed, 0), DecodeWord(packed, 4), items, strings);
    data := Splice(packed, 0, header);
    SpliceHolds(packed, 0, header);
  }

  /** Moves every offset of a packed list by `prefix`, so that the list reads back from there. */
  method Rebase(packed: seq<byte>, prefix: nat, ghost accepted: bool, ghost rs: seq<Resource>)
      returns (data: seq<byte>)
    requires prefix + PackedSize(rs) < 0x1_0000_0000
    requires packed == ListBytes(accepted, rs, 0) + Zeros(Slack(rs, |rs|))
    ensures |data| == |packed| && Holds(data, 0, ListBytes(accepted, rs, prefix))
  {
    hide Holds, ListHeader, ItemBytes, StringsOf, ListBytes, Splice;
    data := MoveHeader(packed, prefix, accepted, rs);
    var count := DecodeWord(packed, 4);
    ghost var header := ListHeader(accepted, |rs|, prefix);
    EmptyHolds(data, LIST_SIZE);
    for i := 0 to count
      invariant count == |rs| && |data| == |packed|
      invariant prefix + CursorOf(rs, i) < 0x1_0000_0000
      invariant SameFrom(data, packed, LIST_SIZE + ITEM_SIZE * i)
      invariant Holds(data, 0, header) && Holds(data, LIST_SIZE, Table(rs, i, prefix))
    {
      var at := LIST_SIZE + ITEM_SIZE * i;
      PlainParts(packed, accepted, rs, i);
      SameHolds(data, packed, at, at, ItemBytes(rs[i], CursorOf(rs, i), 0));
      HoldsFits(data, at, ItemBytes(rs[i], CursorOf(rs, i), 0));
      var item := MoveItem(data, at, prefix, rs[i], CursorOf(rs, i));
      SpliceHolds(data, at, item);
      SpliceKeeps(data, at, item, 0, header);
      SpliceKeeps(data, at, item, LIST_SIZE, Table(rs, i, prefix));
      SpliceSameFrom(data, packed, at, item);
      data := Splice(data, at, item);
      HoldsJoins(data, LIST_SIZE, Table(rs, i, prefix), item);
    }
    MovedList(data, packed, accepted, rs, prefix);
  }

  lemma EmptyHolds(bytes: seq<byte>, at: nat)
    requires at <= |bytes|
    ensures Holds(bytes, at, [])
  {
  }

  lemma MovedList(data: seq<byte>, packed: seq<byte>, accepted: bool, rs: seq<Resource>, prefix: nat)
    requires prefix + PackedSize(rs) < 0x1_0000_0000
    requires packed == ListBytes(accepted, rs, 0) + Zeros(Slack(rs, |rs|))
    requires Holds(data, 0, ListHeader(accepted, |rs|, prefix)) && Holds(data, LIST_SIZE, Table(rs, |rs|, prefix))
    requires SameFrom(data, packed, StringsOffset(|rs|))
    ensures Holds(data, 0, ListBytes(accepted, rs, prefix))
  {
    hide Holds, ListHeader, Table, Strings;
    HoldsEnds(ListBytes(accepted, rs, 0), Zeros(Slack(rs, |rs|)));
    ListParts(packed, 0, accepted, rs);
    SameHolds(data, packed, StringsOffset(|rs|), StringsOffset(|rs|), Strings(rs, |rs|));
    HoldsJoins(data, 0, ListHeader(accepted, |rs|, prefix), Table(rs, |rs|, prefix));
    HoldsJoins(data, 0, ListHeader(accepted, |rs|, prefix) + Table(rs, |rs|, prefix), Strings(rs, |rs|));
  }

  lemma ReadsBackAt(carrier: Carrier, data: seq<byte>, base: nat, rs: seq<Resource>)
    requires HoldsList(data, base, false, rs) && base >= LIST_SIZE && DecodeWord(data, 0) == base
    requires carrier == if base == SHARE_SIZE then Share else Drop
    requires base == SHARE_SIZE || base == DROP_SIZE
    ensures forall index :: EventItem(carrier, data, index) == Expected(rs, index)
  {
    hide ItemAt, DecodeWord;
    forall index ensures EventItem(carrier, data, index) == Expected(rs, index) {
      ListReadsBack(data, base, false, rs, index);
    }
  }

  /** A text stored at `at`, or a zero offset for an empty one, reads back. */
  lemma TextReadsBack(data: seq<byte>, at: nat, minimum: nat, text: seq<byte>)
    requires |data| < 0x1_0000_0000 && 0 < minimum <= at && Holds(data, at, CString(text))
    ensures at < 0x1_0000_0000
    ensures StringView(data, if text == [] then 0 else at, minimum) == Some(TextOf(text))
  {
    if text != [] {
      CStringView(data, at, minimum, text);
    }
  }

  /** Puts a moved list, then up to two texts, behind a header of `|header|` bytes. */
  lemma Assembled(header: seq<byte>, list: seq<byte>, one: seq<byte>, two: seq<byte>)
    ensures var data := header + list + one + two;
            && Holds(data, 0, header) && Holds(data, |header|, list)
            && Holds(data, |header| + |list|, one) && Holds(data, |header| + |list| + |one|, two)
  {
    hide Holds;
    HoldsEnds(header + list + one, two);
    HoldsEnds(header + list, one);
    HoldsEnds(header, list);
    HoldsInside(header + list + one + two, 0, header + list + one, 0, header + list);
    HoldsInside(header + list + one + two, 0, header + list + one, |header + list|, one);
    HoldsInside(header + list + one + two, 0, header + list, 0, header);
    HoldsInside(header + list + one + two, 0, header + list, |header|, list);
  }

  /** A share payload but for its header. */
  method AppendTexts(packed: seq<byte>, text: seq<byte>, subject: seq<byte>)
      returns (data: seq<byte>, textOffset: uint32, subjectOffset: uint32)
    requires SHARE_SIZE + |packed| + |CString(text)| + |CString(subject)| < 0x1_0000_0000
    ensures data == Zeros(SHARE_SIZE) + packed + CString(text) + CString(subject)
    ensures textOffset == if text == [] then 0 else SHARE_SIZE + |packed|
    ensures subjectOffset == if subject == [] then 0 else SHARE_SIZE + |packed| + |CString(text)|
  {
    var textSize := if text == [] then 0 else |text| + 1;
    var subjectSize := if subject == [] then 0 else |subject| + 1;
    data := Splice(Zeros(SHARE_SIZE + |packed| + textSize + subjectSize), SHARE_SIZE, packed);
    assert data == Zeros(SHARE_SIZE) + packed + Zeros(textSize + subjectSize);
    var cursor := SHARE_SIZE + |packed|;
    textOffset, subjectOffset := 0, 0;
    if text != [] {
      textOffset := cursor;
      data := Splice(data, cursor, text + [0]);
      cursor := cursor + |text| + 1;
    }
    assert data == Zeros(SHARE_SIZE) + packed + CString(text) + Zeros(subjectSize);
    if subject != [] {
      subjectOffset := cursor;
      data := Splice(data, cursor, subject + [0]);
    }
    assert data == Zeros(SHARE_SIZE) + packed + CString(text) + CString(subject);
  }

  /** `received_share_payload`. */
  method SharePayload(text: seq<byte>, subject: seq<byte>, rs: seq<Resource>) returns (data: seq<byte>)
    requires SHARE_SIZE + PackedSize(rs) + |CString(text)| + |CString(subject)| < 0x1_0000_0000
    ensures |data| == SHARE_SIZE + PackedSize(rs) + |CString(text)| + |CString(subject)|
    ensures forall index :: EventItem(Share, data, index) == Expected(rs, index)
    ensures ShareString(data, false) == Some(TextOf(text)) && ShareString(data, true) == Some(TextOf(subject))
  {
    hide Holds, EventItem, Expected, ListBytes, ListSize, Words4, TextOf, StringView, Slack;
    var packed := ListPayload(false, rs);
    packed := Rebase(packed, SHARE_SIZE, false, rs);
    var textOffset, subjectOffset;
    data, textOffset, subjectOffset := AppendTexts(packed, text, subject);
    var header := Words4(SHARE_SIZE, textOffset, subjectOffset, 0);
    data := Splice(data, 0, header);
    assert data == header + packed + CString(text) + CString(subject);
    Assembled(header, packed, CString(text), CString(subject));
    ShareReadsBack(data, packed, text, subject, rs, textOffset, subjectOffset);
  }

  lemma ShareReadsBack(data: seq<byte>, packed: seq<byte>, text: seq<byte>, subject: seq<byte>, rs: seq<Resource>,
                       textOffset: uint32, subjectOffset: uint32)
    requires SHARE_SIZE + ListSize(rs) < 0x1_0000_0000 && |data| < 0x1_0000_0000
    requires Holds(packed, 0, ListBytes(false, rs, SHARE_SIZE))
    requires Holds(data, 0, Words4(SHARE_SIZE, textOffset, subjectOffset, 0)) && Holds(data, SHARE_SIZE, packed)
    requires Holds(data, SHARE_SIZE + |packed|, CString(text))
    requires Holds(data, SHARE_SIZE + |packed| + |CString(text)|, CString(subject))
    requires textOffset == if text == [] then 0 else SHARE_SIZE + |packed|
    requires subjectOffset == if subject == [] then 0 else SHARE_SIZE + |packed| + |CString(text)|
    ensures forall index :: EventItem(Share, data, index) == Expected(rs, index)
    ensures ShareString(data, false) == Some(TextOf(text)) && ShareString(data, true) == Some(TextOf(subject))
  {
    hide Holds, EventItem, Expected, ListBytes, Words4, TextOf, StringView, CString, DecodeWord;
    HoldsFits(data, 0, Words4(SHARE_SIZE, textOffset, subjectOffset, 0));
    Words4Decode(data, 0, SHARE_SIZE, textOffset, subjectOffset, 0);
    HoldsInside(data, SHARE_SIZE, packed, 0, ListBytes(false, rs, SHARE_SIZE));
    HoldsFits(data, SHARE_SIZE, ListBytes(false, rs, SHARE_SIZE));
    ReadsBackAt(Share, data, SHARE_SIZE, rs);
    TextReadsBack(data, SHARE_SIZE + |packed|, SHARE_SIZE, text);
    TextReadsBack(data, SHARE_SIZE + |packed| + |CString(text)|, SHARE_SIZE, subject);
  }

  /** `resource_drop_payload`; `x` and `y` are the bits of the two floats. */
  method DropPayload(x: uint32, y: uint32, text: seq<byte>, rs: seq<Resource>) returns (data: seq<byte>)
    requires DROP_SIZE + PackedSize(rs) + |CString(text)| < 0x1_0000_0000
    ensures |data| == DROP_SIZE + PackedSize(rs) + |CString(text)|
    ensures forall index :: EventItem(Drop, data, index) == Expected(rs, index)
    ensures DropText(data) == Some(TextOf(text))
    ensures DecodeWord(data, 8) == x && DecodeWord(data, 12) == y
  {
    hide Holds, EventItem, Expected, ListBytes, ListSize, Words4, TextOf, StringView, Slack, DecodeWord;
    var packed := ListPayload(false, rs);
    packed := Rebase(packed, DROP_SIZE, false, rs);
    var size := DROP_SIZE + |packed| + (if text == [] then 0 else |text| + 1);
    data := Splice(Zeros(size), DROP_SIZE, packed);
    var textOffset := 0;
    if text != [] {
      textOffset := DROP_SIZE + |packed|;
      data := Splice(data, textOffset, text + [0]);
    }
    var header := Words4(DROP_SIZE, textOffset, x, y) + Zeros(16);
    data := Splice(data, 0, header);
    assert data == header + packed + CString(text) + [];
    Assembled(header, packed, CString(text), []);
    DropReadsBack(data, packed, x, y, text, rs, textOffset);
  }

  lemma DropReadsBack(data: seq<byte>, packed: seq<byte>, x: uint32, y: uint32, text: seq<byte>, rs: seq<Resource>,
                      textOffset: uint32)
    requires DROP_SIZE + ListSize(rs) < 0x1_0000_0000 && |data| < 0x1_0000_0000
    requires Holds(packed, 0, ListBytes(false, rs, DROP_SIZE))
    requires Holds(data, 0, Words4(DROP_SIZE, textOffset, x, y) + Zeros(16)) && Holds(data, DROP_SIZE, packed)
    requires Holds(data, DROP_SIZE + |packed|, CString(text))
    requires textOffset == if text == [] then 0 else DROP_SIZE + |packed|
    ensures forall index :: EventItem(Drop, data, index) == Expected(rs, index)
    ensures DropText(data) == Some(TextOf(text)) && DecodeWord(data, 8) == x && DecodeWord(data, 12) == y
  {
    hide Holds, EventItem, Expected, ListBytes, Words4, TextOf, StringView, CString, DecodeWord;
    var words := Words4(DROP_SIZE, textOffset, x, y);
    HoldsEnds(words, Zeros(16));
    HoldsInside(data, 0, words + Zeros(16), 0, words);
    HoldsFits(data, 0, words + Zeros(16));
    Words4Decode(data, 0, DROP_SIZE, textOffset, x, y);
    HoldsInside(data, DROP_SIZE, packed, 0, ListBytes(false, rs, DROP_SIZE));
    HoldsFits(data, DROP_SIZE, ListBytes(false, rs, DROP_SIZE));
    ReadsBackAt(Drop, data, DROP_SIZE, rs);
    TextReadsBack(data, DROP_SIZE + |packed|, DROP_SIZE, text);
  }
}
