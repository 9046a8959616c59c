/** `read_existing_artwork`: the strict reader that guards an ArtworkDB rewrite. */
module ArtworkDbReader {
  import opened Outcomes
  import opened Bytes
  import opened ArtworkTypes
  import opened ArtworkDbFormat
  import Utf16
  import Text
  import IthmbPaths

  /** What the reader asks of its surroundings: which files lie in the artwork directory,
      and how bytes marked as UTF-8 decode. */
  datatype Env = Env(present: string -> bool, utf8: Bytes -> string)

  predicate HasTag(data: Bytes, offset: nat, tag: Bytes)
    requires offset + 4 <= |data| && |tag| == 4
  {
    data[offset..offset + 4] == tag
  }

  /** `total_length_is_valid` with an explicit end. */
  predicate TotalIsValid(data: Bytes, offset: nat, header: nat, total: nat, minHeader: nat, end: nat) {
    header >= minHeader && total >= header && offset + total <= (if end < |data| then end else |data|)
  }

  /** `decode_mhod_string_body` */
  function DecodeBody(env: Env, data: Bytes, bodyOffset: nat, bodyEnd: nat): Option<string>
    requires bodyEnd <= |data|
  {
    if bodyOffset + 12 > bodyEnd then None
    else
      var length := ReadU32(data, bodyOffset);
      var start := bodyOffset + 12;
      var raw := data[start..Min(bodyEnd, start + length)];
      Some(Text.RStripNul(if data[bodyOffset + 4] == UTF16_ENCODING then Utf16.DecodeReplace(raw) else env.utf8(raw)))
  }

  /** `decode_mhod_string_chunk` */
  function DecodeChunk(env: Env, data: Bytes, offset: nat, total: nat): Option<string>
    requires offset + total <= |data|
  {
    if MHOD_HEADER_SIZE + 12 > total then None
    else
      var header := ReadU32(data, offset + 4);
      if header < MHOD_HEADER_SIZE || header > total then None
      else DecodeBody(env, data, offset + header, offset + total)
  }

  /** The loop of `_parse_mhni_filename`: the first file name among the children. */
  function FindFilename(env: Env, data: Bytes, child: nat, end: nat): Option<string>
    requires end <= |data|
    decreases end - child
  {
    if child + MHOD_HEADER_SIZE > end || !HasTag(data, child, MHOD) then None
    else
      var header, total := ReadU32(data, child + 4), ReadU32(data, child + 8);
      if header < MHOD_HEADER_SIZE || total < header || child + total > end then None
      else if ReadU16(data, child + 12) == FILE_NAME then DecodeChunk(env, data, child, total)
      else FindFilename(env, data, child + total, end)
  }

  /** `_parse_mhni_filename` */
  function ParseFilename(env: Env, data: Bytes, mhni: nat, containerEnd: nat): Option<string>
    requires containerEnd <= |data|
  {
    if mhni + 12 > containerEnd then None
    else
      var header, total := ReadU32(data, mhni + 4), ReadU32(data, mhni + 8);
      FindFilename(env, data, mhni + (if header < MHNI_HEADER_SIZE then MHNI_HEADER_SIZE else header),
                   Min(containerEnd, mhni + total))
  }

  type Frame = (nat, ExistingFormatRef)

  /** One thumbnail: its format and where its frame lies, if that file is there. */
  function ParseFrame(env: Env, data: Bytes, mhni: nat, childEnd: nat): Option<Frame>
    requires mhni + MHNI_HEADER_SIZE <= childEnd <= |data|
  {
    var formatId, size := ReadU32(data, mhni + 16), ReadU32(data, mhni + 24);
    var parsed := ParseFilename(env, data, mhni, childEnd);
    var filename := IthmbPaths.Normalize(formatId, if parsed.Some? then parsed.value else "");
    if env.present(IthmbPaths.Normalize(formatId, filename)) && size > 0 then
      Some((formatId, ExistingFormatRef(
        filename,
        ReadU32(data, mhni + 20),
        size,
        Max(1, ReadU16(data, mhni + 34)),
        Max(1, ReadU16(data, mhni + 32)),
        Max(0, ReadI16(data, mhni + 30)),
        Max(0, ReadI16(data, mhni + 28)))))
    else None
  }

  /** One mhod child of an image item: the frame it holds, or none, or a rejection. */
  function ReadChild(env: Env, data: Bytes, offset: nat, end: nat): (r: Option<seq<Frame>>)
    requires end <= |data|
    ensures r.Some? ==> offset + 14 <= end && 14 <= ReadU32(data, offset + 8) <= end - offset
  {
    if offset + 14 > end || !HasTag(data, offset, MHOD) then None
    else
      var header, total := ReadU32(data, offset + 4), ReadU32(data, offset + 8);
      if !TotalIsValid(data, offset, header, total, 14, end) then None
      else if ReadU16(data, offset + 12) != THUMBNAIL_IMAGE then Some([])
      else
        var mhni, childEnd := offset + header, offset + total;
        if mhni + MHNI_HEADER_SIZE > childEnd || !HasTag(data, mhni, MHNI) then None
        else
          var frame := ParseFrame(env, data, mhni, childEnd);
          Some(if frame.Some? then [frame.value] else [])
  }

  /** The frames of `count` consecutive mhod children. */
  function ReadChildren(env: Env, data: Bytes, offset: nat, end: nat, count: nat): Option<seq<Frame>>
    requires end <= |data|
    decreases count
  {
    if count == 0 then Some([])
    else
      var first :- ReadChild(env, data, offset, end);
      var rest :- ReadChildren(env, data, offset + ReadU32(data, offset + 8), end, count - 1);
      Some(first + rest)
  }

  /** `formats[format_id] = ...` for each frame in turn: the last one for a format stays. */
  function FormatMap(frames: seq<Frame>): map<nat, ExistingFormatRef> {
    if frames == [] then map[]
    else
      var last := frames[|frames| - 1];
      FormatMap(frames[..|frames| - 1])[last.0 := last.1]
  }

  /** `_parse_mhii_existing`, for an item whose total length was checked. */
  function ReadItem(env: Env, data: Bytes, offset: nat, total: nat): Option<seq<ExistingEntry>>
    requires 52 <= total && offset + total <= |data|
  {
    var header := ReadU32(data, offset + 4);
    if header < 52 || header > total then None
    else
      var frames :- ReadChildren(env, data, offset + header, offset + total, ReadU32(data, offset + 12));
      Some(
        if frames == [] then []
        else [ExistingEntry(ReadU32(data, offset + 16), ReadU64(data, offset + 20), ReadU32(data, offset + 48),
                            FormatMap(frames))])
  }

  /** One image item of a list that ends at `end`. */
  function ReadChecked(env: Env, data: Bytes, offset: nat, end: nat): (r: Option<seq<ExistingEntry>>)
    requires end <= |data|
    ensures r.Some? ==> offset + 52 <= end && 52 <= ReadU32(data, offset + 8) <= end - offset
  {
    if offset + 52 > end || !HasTag(data, offset, MHII) then None
    else
      var total := ReadU32(data, offset + 8);
      if total < 52 || offset + total > end then None else ReadItem(env, data, offset, total)
  }

  function ReadItems(env: Env, data: Bytes, offset: nat, end: nat, count: nat): Option<seq<ExistingEntry>>
    requires end <= |data|
    decreases count
  {
    if count == 0 then Some([])
    else
      var first :- ReadChecked(env, data, offset, end);
      var rest :- ReadItems(env, data, offset + ReadU32(data, offset + 8), end, count - 1);
      Some(first + rest)
  }

  /** The image list inside a dataset that ends at `end`. */
  function ReadImageList(env: Env, data: Bytes, mhli: nat, end: nat): Option<seq<ExistingEntry>>
    requires end <= |data|
  {
    if mhli + 12 > end || !HasTag(data, mhli, MHLI) then None
    else
      var header, count := ReadU32(data, mhli + 4), ReadU32(data, mhli + 8);
      if header < 12 || mhli + header > end then None
      else ReadItems(env, data, mhli + header, end, count)
  }

  function ReadDataset(env: Env, data: Bytes, offset: nat, end: nat): (r: Option<seq<ExistingEntry>>)
    requires end <= |data|
    ensures r.Some? ==> offset + 14 <= end && 14 <= ReadU32(data, offset + 8) <= end - offset
  {
    if offset + 14 > end || !HasTag(data, offset, MHSD) then None
    else
      var header, total := ReadU32(data, offset + 4), ReadU32(data, offset + 8);
      if !TotalIsValid(data, offset, header, total, 14, end) then None
      else if ReadU16(data, offset + 12) != IMAGE_LIST then Some([])
      else ReadImageList(env, data, offset + header, offset + total)
  }

  function ReadDatasets(env: Env, data: Bytes, offset: nat, end: nat, count: nat): Option<seq<ExistingEntry>>
    requires end <= |data|
    decreases count
  {
    if count == 0 then Some([])
    else
      var first :- ReadDataset(env, data, offset, end);
      var rest :- ReadDatasets(env, data, offset + ReadU32(data, offset + 8), end, count - 1);
      Some(first + rest)
  }

  /** The accepted image items of a database, in file order. */
  function ReadDatabase(env: Env, data: Bytes): Option<seq<ExistingEntry>> {
    if |data| < 32 || !HasTag(data, 0, MHFD) then None
    else
      var header, total := ReadU32(data, 4), ReadU32(data, 8);
      if !TotalIsValid(data, 0, header, total, 32, |data|) then None
      else ReadDatasets(env, data, header, total, ReadU32(data, 20))
  }

  /** `entries[entry["img_id"]] = entry` for each item in turn. */
  function EntryMap(entries: seq<ExistingEntry>): map<nat, ExistingEntry> {
    if entries == [] then map[]
    else
      var last := entries[|entries| - 1];
      EntryMap(entries[..|entries| - 1])[last.imgId := last]
  }

  lemma EntryMapConcat(a: seq<ExistingEntry>, b: seq<ExistingEntry>)
    ensures EntryMap(a + b) == EntryMap(a) + EntryMap(b)
  {
    if b == [] {
      assert a + b == a;
    } else {
      assert (a + b)[..|a + b| - 1] == a + b[..|b| - 1];
      EntryMapConcat(a, b[..|b| - 1]);
    }
  }

  lemma FormatMapAppend(frames: seq<Frame>, frame: Frame)
    ensures FormatMap(frames + [frame]) == FormatMap(frames)[frame.0 := frame.1]
  {
    assert (frames + [frame])[..|frames|] == frames;
  }

  /** The result of reading the file: missing, unreadable, or its bytes. */
  datatype FileRead = Missing | Unreadable | Contents(data: Bytes)

  function Prepend<T>(front: seq<T>, r: Option<seq<T>>): Option<seq<T>> {
    if r.None? then r else Some(front + r.value)
  }

  lemma PrependNothing<T>(r: Option<seq<T>>)
    ensures Prepend([], r) == r
  {
    if r.Some? { assert [] + r.value == r.value; }
  }

  lemma PrependTwice<T>(a: seq<T>, b: seq<T>, r: Option<seq<T>>)
    ensures Prepend(a, Prepend(b, r)) == Prepend(a + b, r)
  {
    if r.Some? { assert a + (b + r.value) == a + b + r.value; }
  }

  lemma ChildStep(env: Env, data: Bytes, offset: nat, end: nat, count: nat)
    requires end <= |data| && count > 0
    ensures var first := ReadChild(env, data, offset, end);
            ReadChildren(env, data, offset, end, count) ==
            if first.None? then None
            else Prepend(first.value, ReadChildren(env, data, offset + ReadU32(data, offset + 8), end, count - 1))
  {
    hide ReadChild;
  }

  lemma ItemStep(env: Env, data: Bytes, offset: nat, end: nat, count: nat)
    requires end <= |data| && count > 0
    ensures var first := ReadChecked(env, data, offset, end);
            ReadItems(env, data, offset, end, count) ==
            if first.None? then None
            else Prepend(first.value, ReadItems(env, data, offset + ReadU32(data, offset + 8), end, count - 1))
  {
    hide ReadChecked;
  }

  lemma DatasetStep(env: Env, data: Bytes, offset: nat, end: nat, count: nat)
    requires end <= |data| && count > 0
    ensures var first := ReadDataset(env, data, offset, end);
            ReadDatasets(env, data, offset, end, count) ==
            if first.None? then None
            else Prepend(first.value, ReadDatasets(env, data, offset + ReadU32(data, offset + 8), end, count - 1))
  {
    hide ReadDataset;
  }

  method FindName(env: Env, data: Bytes, start: nat, end: nat) returns (r: Option<string>)
    requires end <= |data|
    ensures r == FindFilename(env, data, start, end)
  {
    hide DecodeChunk;
    var child := start;
    while child + MHOD_HEADER_SIZE <= end
      invariant FindFilename(env, data, start, end) == FindFilename(env, data, child, end)
      decreases end - child
    {
      if !HasTag(data, child, MHOD) {
        break;
      }
      var header, total := ReadU32(data, child + 4), ReadU32(data, child + 8);
      if header < MHOD_HEADER_SIZE || total < header {
        break;
      }
      if child + total > end {
        break;
      }
      if ReadU16(data, child + 12) == FILE_NAME {
        return DecodeChunk(env, data, child, total);
      }
      child := child + total;
    }
    return None;
  }

  /** One pass of the loop over the mhod children of an image item. */
  method ParseChild(env: Env, data: Bytes, offset: nat, end: nat, formats: map<nat, ExistingFormatRef>,
                    ghost frames: seq<Frame>)
    returns (r: Option<map<nat, ExistingFormatRef>>)
    requires end <= |data| && formats == FormatMap(frames)
    ensures r.None? <==> ReadChild(env, data, offset, end).None?
    ensures r.Some? ==> r.value == FormatMap(frames + ReadChild(env, data, offset, end).value)
  {
    hide FormatMap;
    hide ParseFrame;
    if offset + 14 > end || !HasTag(data, offset, MHOD) {
      return None;
    }
    var mhodHeader, mhodTotal := ReadU32(data, offset + 4), ReadU32(data, offset + 8);
    if !TotalIsValid(data, offset, mhodHeader, mhodTotal, 14, end) {
      return None;
    }
    assert frames + [] == frames;
    if ReadU16(data, offset + 12) == THUMBNAIL_IMAGE {
      var mhni, childEnd := offset + mhodHeader, offset + mhodTotal;
      if mhni + MHNI_HEADER_SIZE > childEnd || !HasTag(data, mhni, MHNI) {
        return None;
      }
      var frame := ParseFrame(env, data, mhni, childEnd);
      if frame.Some? {
        FormatMapAppend(frames, frame.value);
        return Some(formats[frame.value.0 := frame.value.1]);
      }
    }
    return Some(formats);
  }

  lemma FormatMapEmpty(frames: seq<Frame>)
    ensures FormatMap(frames) == map[] <==> frames == []
  {
    if frames != [] {
      assert frames[|frames| - 1].0 in FormatMap(frames);
    }
  }

  /** `_parse_mhii_existing` */
  method ParseItem(env: Env, data: Bytes, offset: nat, total: nat) returns (r: Option<seq<ExistingEntry>>)
    requires 52 <= total && offset + total <= |data|
    ensures r == ReadItem(env, data, offset, total)
  {
    hide ReadChild;
    hide ReadChildren;
    hide FormatMap;
    var entryEnd := offset + total;
    var header, count := ReadU32(data, offset + 4), ReadU32(data, offset + 12);
    if header < 52 || header > total {
      return None;
    }
    var formats: map<nat, ExistingFormatRef> := map[];
    ghost var frames: seq<Frame> := [];
    FormatMapEmpty(frames);
    var child: nat := offset + header;
    ghost var all := ReadChildren(env, data, child, entryEnd, count);
    PrependNothing(all);
    for i := 0 to count
      invariant all == Prepend(frames, ReadChildren(env, data, child, entryEnd, count - i))
      invariant formats == FormatMap(frames)
    {
      ChildStep(env, data, child, entryEnd, count - i);
      ghost var step := ReadChild(env, data, child, entryEnd);
      formats :- ParseChild(env, data, child, entryEnd, formats, frames);
      PrependTwice(frames, step.value,
                   ReadChildren(env, data, child + ReadU32(data, child + 8), entryEnd, count - i - 1));
      frames := frames + step.value;
      child := child + ReadU32(data, child + 8);
    }
    FormatMapEmpty(frames);
    assert all == Some(frames) by { LastChildren(env, data, child, entryEnd); assert frames + [] == frames; }
    if formats == map[] {
      return Some([]);
    }
    return Some([ExistingEntry(ReadU32(data, offset + 16), ReadU64(data, offset + 20), ReadU32(data, offset + 48), formats)]);
  }

  lemma LastChildren(env: Env, data: Bytes, offset: nat, end: nat)
    requires end <= |data|
    ensures ReadChildren(env, data, offset, end, 0) == Some([])
    ensures ReadItems(env, data, offset, end, 0) == Some([])
    ensures ReadDatasets(env, data, offset, end, 0) == Some([])
  {
  }

  /** The loop over the image items of one dataset. */
  method ReadItemList(env: Env, data: Bytes, mhli: nat, end: nat) returns (r: Option<seq<ExistingEntry>>)
    requires end <= |data|
    ensures r == ReadImageList(env, data, mhli, end)
  {
    hide ReadItem;
    hide ReadItems;
    if mhli + 12 > end || !HasTag(data, mhli, MHLI) {
      return None;
    }
    var header, count := ReadU32(data, mhli + 4), ReadU32(data, mhli + 8);
    if header < 12 || mhli + header > end {
      return None;
    }
    var found: seq<ExistingEntry> := [];
    var offset: nat := mhli + header;
    ghost var all := ReadItems(env, data, offset, end, count);
    PrependNothing(all);
    for i := 0 to count
      invariant all == Prepend(found, ReadItems(env, data, offset, end, count - i))
    {
      ItemStep(env, data, offset, end, count - i);
      if offset + 52 > end || !HasTag(data, offset, MHII) {
        return None;
      }
      var total := ReadU32(data, offset + 8);
      if total < 52 || offset + total > end {
        return None;
      }
      ghost var rest := ReadItems(env, data, offset + total, end, count - i - 1);
      var entry :- ParseItem(env, data, offset, total);
      PrependTwice(found, entry, rest);
      found := found + entry;
      offset := offset + total;
    }
    LastChildren(env, data, offset, end);
    assert found + [] == found;
    return Some(found);
  }

  method ReadExistingArtwork(env: Env, file: FileRead) returns (r: Option<map<nat, ExistingEntry>>)
    ensures file.Missing? ==> r == Some(map[])
    ensures file.Unreadable? ==> r == None
    ensures file.Contents? ==>
      r == (match ReadDatabase(env, file.data)
            case None => None
            case Some(entries) => Some(EntryMap(entries)))
  {
    hide ReadDatasets;
    hide ReadImageList;
    hide EntryMap;
    if file.Missing? {
      return Some(map[]);
    }
    if file.Unreadable? {
      return None;
    }
    var data := file.data;
    if |data| < 32 || !HasTag(data, 0, MHFD) {
      return None;
    }
    var header, end := ReadU32(data, 4), ReadU32(data, 8);
    var childCount := ReadU32(data, 20);
    if !TotalIsValid(data, 0, header, end, 32, |data|) {
      return None;
    }
    var entries: map<nat, ExistingEntry> := map[];
    ghost var read: seq<ExistingEntry> := [];
    var offset: nat := header;
    ghost var all := ReadDatasets(env, data, offset, end, childCount);
    PrependNothing(all);
    EntryMapNone();
    for i := 0 to childCount
      invariant all == Prepend(read, ReadDatasets(env, data, offset, end, childCount - i))
      invariant entries == EntryMap(read)
    {
      DatasetStep(env, data, offset, end, childCount - i);
      if offset + 14 > end || !HasTag(data, offset, MHSD) {
        return None;
      }
      var mhsdHeader, mhsdTotal := ReadU32(data, offset + 4), ReadU32(data, offset + 8);
      if !TotalIsValid(data, offset, mhsdHeader, mhsdTotal, 14, end) {
        return None;
      }
      ghost var rest := ReadDatasets(env, data, offset + mhsdTotal, end, childCount - i - 1);
      if ReadU16(data, offset + 12) == IMAGE_LIST {
        var found :- ReadItemList(env, data, offset + mhsdHeader, offset + mhsdTotal);
        EntryMapConcat(read, found);
        PrependTwice(read, found, rest);
        entries := entries + EntryMap(found);
        read := read + found;
      } else {
        PrependTwice(read, [], rest);
        assert read + [] == read;
      }
      offset := offset + mhsdTotal;
    }
    LastChildren(env, data, offset, end);
    assert read + [] == read;
    return Some(entries);
  }

  lemma EntryMapNone()
    ensures EntryMap([]) == map[]
  {
  }
}
