/** Reading back a written ArtworkDB. */
module ArtworkDbRoundTrip {
  import opened Outcomes
  import opened Bytes
  import opened ArtworkTypes
  import opened ArtworkDbFormat
  import opened ArtworkDbReader
  import Utf16
  import Text
  import IthmbPaths

  lemma PatchKeepsTag(header: Bytes, offset: nat, field: Bytes)
    requires 4 <= offset && offset + |field| <= |header|
    ensures Patch(header, offset, field)[0..4] == header[0..4]
  {
  }

  /** Packing at `offset` changes nothing that lies below 12: tag, size and third word. */
  lemma PatchKeepsHead(header: Bytes, offset: nat, field: Bytes)
    requires 12 <= offset && offset + |field| <= |header|
    ensures Patch(header, offset, field)[0..4] == header[0..4]
    ensures ReadU32(Patch(header, offset, field), 4) == ReadU32(header, 4)
    ensures ReadU32(Patch(header, offset, field), 8) == ReadU32(header, 8)
  {
    PatchKeepsTag(header, offset, field);
    PatchKeeps(header, offset, field, 4);
    PatchKeeps(header, offset, field, 8);
  }

  lemma TagHeaderFields(tag: Bytes, size: nat, third: int)
    requires |tag| == 4 && size >= 12 && FitsU32(size) && FitsU32(third)
    ensures var h := TagHeader(tag, size, third);
            h[0..4] == tag && ReadU32(h, 4) == size && ReadU32(h, 8) == third
  {
    var a := Patch(Zeros(size), 0, tag);
    var b := Patch(a, 4, U32(size));
    assert a[0..4] == tag;
    PatchRead(a, 4, size);
    PatchKeepsTag(a, 4, U32(size));
    PatchRead(b, 8, third);
    PatchKeepsTag(b, 8, U32(third));
    PatchKeeps(b, 8, U32(third), 4);
  }

  lemma TypedHeaderFields(tag: Bytes, size: nat, total: int, kind: int)
    requires |tag| == 4 && size >= 14 && FitsU32(size) && FitsU32(total) && FitsU16(kind)
    ensures var h := TypedHeader(tag, size, total, kind);
            h[0..4] == tag && ReadU32(h, 4) == size && ReadU32(h, 8) == total && ReadU16(h, 12) == kind
  {
    hide TagHeader;
    var a := TagHeader(tag, size, total);
    TagHeaderFields(tag, size, total);
    PatchKeepsHead(a, 12, U16(kind));
    PatchRead(a, 12, kind);
  }

  /** A header that lies in `data` is recognised there. */
  lemma HeadAt(data: Bytes, offset: nat, header: Bytes, body: Bytes)
    requires At(data, offset, header + body) && |header| >= 14
    ensures At(data, offset + |header|, body)
    ensures HasTag(data, offset, header[0..4])
    ensures ReadU32(data, offset + 4) == ReadU32(header, 4)
    ensures ReadU32(data, offset + 8) == ReadU32(header, 8)
    ensures ReadU16(data, offset + 12) == ReadU16(header, 12)
  {
    AtSplit(data, offset, header, body);
    AtSlice(data, offset, header, 0, 4);
    AtRead(data, offset, header, 4);
    AtRead(data, offset, header, 8);
    AtRead(data, offset, header, 12);
  }

  /** Where the three parts of a written string body lie. */
  lemma BodyParts(data: Bytes, offset: nat, value: string)
    requires At(data, offset, StringBody(value)) && FitsU32(|Utf16.Encode(value)|)
    ensures |StringBody(value)| >= 12 + |Utf16.Encode(value)|
    ensures ReadU32(data, offset) == |Utf16.Encode(value)| && data[offset + 4] == UTF16_ENCODING
    ensures data[offset + 12..offset + 12 + |Utf16.Encode(value)|] == Utf16.Encode(value)
  {
    hide Utf16.Encode;
    hide U32;
    var e := Utf16.Encode(value);
    var pad := Zeros((4 - |e| % 4) % 4);
    var head := U32(|e|) + ([UTF16_ENCODING] + Zeros(3) + Zeros(4));
    assert |U32(|e|)| == 4 by { U32Length(|e|); }
    assert StringBody(value) == head + e + pad;
    AtSplit(data, offset, head + e, pad);
    AtSplit(data, offset, head, e);
    UnpackU32(|e|);
    AtSplit(data, offset, U32(|e|), [UTF16_ENCODING] + Zeros(3) + Zeros(4));
    AtRead(data, offset, U32(|e|), 0);
    AtIndex(data, offset, head, 4);
  }

  lemma U32Length(x: int)
    ensures |U32(x)| == 4
  {
  }

  /** A written string body decodes to its text without trailing NULs. */
  lemma BodyDecodes(env: Env, data: Bytes, offset: nat, end: nat, value: string)
    requires At(data, offset, StringBody(value)) && end == offset + |StringBody(value)| && end <= |data|
    requires FitsU32(|Utf16.Encode(value)|)
    ensures DecodeBody(env, data, offset, end) == Some(Text.RStripNul(value))
  {
    hide Utf16.Encode;
    hide StringBody;
    hide ReadU32;
    hide Utf16.DecodeReplace;
    BodyParts(data, offset, value);
    Utf16.DecodeEncoded(value);
  }

  lemma NameChunkFound(env: Env, data: Bytes, offset: nat, end: nat, value: string)
    requires At(data, offset, MhodString(value)) && offset + |MhodString(value)| <= end <= |data|
    requires FitsU32(|Utf16.Encode(value)|) && FitsU32(|MhodString(value)|)
    ensures FindFilename(env, data, offset, end) == Some(Text.RStripNul(value))
  {
    hide StringBody;
    hide TypedHeader;
    hide DecodeBody;
    var body := StringBody(value);
    var total := MHOD_HEADER_SIZE + |body|;
    var header := TypedHeader(MHOD, MHOD_HEADER_SIZE, total, FILE_NAME);
    TypedHeaderFields(MHOD, MHOD_HEADER_SIZE, total, FILE_NAME);
    HeadAt(data, offset, header, body);
    BodyLength(value);
    BodyDecodes(env, data, offset + MHOD_HEADER_SIZE, offset + total, value);
  }

  lemma BodyLength(value: string)
    ensures |StringBody(value)| >= 12
  {
  }

  lemma FieldLengths()
    ensures forall x: int :: |U16(x)| == 2
    ensures forall x: int :: |U32(x)| == 4
  {
  }

  lemma MhniFields(formatId: nat, location: IthmbLocation, p: FormatPayload, total: int)
    requires MhniFits(formatId, location, p) && FitsU32(total)
    ensures var h := MhniHeader(formatId, location, p, total);
      && h[0..4] == MHNI && ReadU32(h, 4) == MHNI_HEADER_SIZE && ReadU32(h, 8) == total
      && ReadU32(h, 12) == 1
      && ReadU32(h, 16) == formatId && ReadU32(h, 20) == location.offset && ReadU32(h, 24) == p.size
      && ReadU16(h, 28) == Max(0, p.vpad) && ReadU16(h, 30) == Max(0, p.hpad)
      && ReadU16(h, 32) == p.height && ReadU16(h, 34) == p.width
  {
    hide Patch;
    hide TagHeader;
    hide MhniName;
    hide Mhni;
    hide ReadU16;
    hide ReadU32;
    hide ReadU64;
    hide U16;
    hide U32;
    FieldLengths();
    var h0 := TagHeader(MHNI, MHNI_HEADER_SIZE, total);
    TagHeaderFields(MHNI, MHNI_HEADER_SIZE, total);
    var h1 := Keep(h0, 12, U32(1));
    var h2 := Keep(h1, 16, U32(formatId));
    var h3 := Keep(h2, 20, U32(location.offset));
    var h4 := Keep(h3, 24, U32(p.size));
    var h5 := Keep(h4, 28, U16(Max(0, p.vpad)));
    var h6 := Keep(h5, 30, U16(Max(0, p.hpad)));
    var h7 := Keep(h6, 32, U16(p.height));
    var h8 := Keep(h7, 34, U16(p.width));
    var h9 := Keep(h8, 40, U32(p.size));
    PatchRead(h0, 12, 1);
    PatchRead(h1, 16, formatId);
    PatchRead(h2, 20, location.offset);
    PatchRead(h3, 24, p.size);
    PatchRead(h4, 28, Max(0, p.vpad));
    PatchRead(h5, 30, Max(0, p.hpad));
    PatchRead(h6, 32, p.height);
    PatchRead(h7, 34, p.width);
  }

  /** One more field of a header: the ones already there keep their values. */
  lemma Keep(header: Bytes, offset: nat, field: Bytes) returns (r: Bytes)
    requires 12 <= offset && offset + |field| <= |header|
    ensures r == Patch(header, offset, field)
    ensures r[0..4] == header[0..4] && ReadU32(r, 4) == ReadU32(header, 4) && ReadU32(r, 8) == ReadU32(header, 8)
    ensures forall at | 12 <= at && at + 2 <= offset :: ReadU16(r, at) == ReadU16(header, at)
    ensures forall at | 12 <= at && at + 4 <= offset :: ReadU32(r, at) == ReadU32(header, at)
    ensures forall at | 12 <= at && at + 8 <= offset :: ReadU64(r, at) == ReadU64(header, at)
  {
    r := Patch(header, offset, field);
    PatchKeepsHead(header, offset, field);
  }

  function ExpectedRef(name: string, location: IthmbLocation, p: FormatPayload): ExistingFormatRef {
    ExistingFormatRef(name, Max(0, location.offset), Max(0, p.size), Max(1, p.width), Max(1, p.height),
                      Max(0, p.hpad), Max(0, p.vpad))
  }

  /** The frame that reading back `p`, written at `location`, must give; none if its
      shard is not there or its size is zero. */
  function ExpectedFrame(env: Env, formatId: nat, location: IthmbLocation, p: FormatPayload): seq<Frame> {
    var name := IthmbPaths.RecoveredName(formatId, IthmbPaths.Normalize(formatId, location.filename));
    if env.present(IthmbPaths.Normalize(formatId, name)) && p.size > 0 then [(formatId, ExpectedRef(name, location, p))] else []
  }

  lemma MhniNameFound(env: Env, data: Bytes, mhni: nat, formatId: nat, location: IthmbLocation, p: FormatPayload)
    requires MhniFits(formatId, location, p)
    requires At(data, mhni, Mhni(formatId, location, p))
    ensures ParseFilename(env, data, mhni, mhni + |Mhni(formatId, location, p)|) ==
            Some(Text.RStripNul(":" + IthmbPaths.Normalize(formatId, location.filename)))
  {
    hide MhniHeader;
    hide FindFilename;
    hide MhodString;
    hide IthmbPaths.Normalize;
    var name := MhniName(formatId, location.filename);
    var total := MHNI_HEADER_SIZE + |name|;
    var header := MhniHeader(formatId, location, p, total);
    MhniFields(formatId, location, p, total);
    HeadAt(data, mhni, header, name);
    NameChunkFound(env, data, mhni + MHNI_HEADER_SIZE, mhni + total, ":" + IthmbPaths.Normalize(formatId, location.filename));
  }

  lemma FrameParsed(env: Env, data: Bytes, mhni: nat, formatId: nat, location: IthmbLocation, p: FormatPayload)
    requires MhniFits(formatId, location, p)
    requires At(data, mhni, Mhni(formatId, location, p))
    ensures var frame := ParseFrame(env, data, mhni, mhni + |Mhni(formatId, location, p)|);
            (if frame.Some? then [frame.value] else []) == ExpectedFrame(env, formatId, location, p)
    ensures HasTag(data, mhni, MHNI)
  {
    hide MhniHeader;
    hide ParseFilename;
    hide IthmbPaths.Normalize;
    hide Text.RStripNul;
    hide MhniName;
    var name := MhniName(formatId, location.filename);
    var total := MHNI_HEADER_SIZE + |name|;
    var header := MhniHeader(formatId, location, p, total);
    MhniFields(formatId, location, p, total);
    HeadAt(data, mhni, header, name);
    MhniNameFound(env, data, mhni, formatId, location, p);
    AtSplit(data, mhni, header, name);
    AtRead(data, mhni, header, 16);
    AtRead(data, mhni, header, 20);
    AtRead(data, mhni, header, 24);
    AtRead(data, mhni, header, 28);
    AtRead(data, mhni, header, 30);
    AtRead(data, mhni, header, 32);
    AtRead(data, mhni, header, 34);
  }

  lemma ContainerRead(env: Env, data: Bytes, offset: nat, end: nat, formatId: nat, location: IthmbLocation, p: FormatPayload)
    requires MhniFits(formatId, location, p) && FitsU32(|MhodContainer(Mhni(formatId, location, p))|)
    requires At(data, offset, MhodContainer(Mhni(formatId, location, p)))
    requires offset + |MhodContainer(Mhni(formatId, location, p))| <= end <= |data|
    ensures ReadChild(env, data, offset, end) == Some(ExpectedFrame(env, formatId, location, p))
    ensures ReadU32(data, offset + 8) == |MhodContainer(Mhni(formatId, location, p))|
  {
    hide TypedHeader;
    hide Mhni;
    hide MhniFits;
    hide ParseFrame;
    hide ExpectedFrame;
    hide ReadU32;
    hide ReadU16;
    var child := Mhni(formatId, location, p);
    var total := MHOD_HEADER_SIZE + |child|;
    var header := TypedHeader(MHOD, MHOD_HEADER_SIZE, total, THUMBNAIL_IMAGE);
    TypedHeaderFields(MHOD, MHOD_HEADER_SIZE, total, THUMBNAIL_IMAGE);
    HeadAt(data, offset, header, child);
    FrameParsed(env, data, offset + MHOD_HEADER_SIZE, formatId, location, p);
    MhniLength(formatId, location, p);
  }

  lemma MhniLength(formatId: nat, location: IthmbLocation, p: FormatPayload)
    ensures |Mhni(formatId, location, p)| >= MHNI_HEADER_SIZE
  {
  }

  lemma {:induction false} MhiiChildrenFirst(ids: seq<nat>, entry: ArtworkEntry, locations: Locations)
    requires ids != [] && forall f | f in ids :: f in entry.formats
    ensures MhiiChildren(ids, entry, locations) ==
            MhiiChild(ids[0], entry, locations) + MhiiChildren(ids[1..], entry, locations)
  {
    hide MhiiChild;
    var n := |ids| - 1;
    if n == 0 {
      assert ids[..0] == [] && ids[1..] == [];
    } else {
      MhiiChildrenFirst(ids[..n], entry, locations);
      assert ids[..n][1..] == ids[1..][..n - 1];
      assert ids[1..][n - 1] == ids[n] && ids[..n][0] == ids[0];
      var a, b, c := MhiiChild(ids[0], entry, locations), MhiiChildren(ids[1..][..n - 1], entry, locations), MhiiChild(ids[n], entry, locations);
      assert a + b + c == a + (b + c);
    }
  }

  function ExpectedChild(env: Env, formatId: nat, entry: ArtworkEntry, locations: Locations): seq<Frame>
    requires formatId in entry.formats && MhiiChildFits(formatId, entry, locations)
  {
    ExpectedFrame(env, formatId, LocationOf(formatId, locations), entry.formats[formatId])
  }

  function ExpectedFrames(env: Env, ids: seq<nat>, entry: ArtworkEntry, locations: Locations): seq<Frame>
    requires forall f | f in ids :: f in entry.formats && MhiiChildFits(f, entry, locations)
  {
    hide MhiiChildFits;
    if ids == [] then []
    else ExpectedChild(env, ids[0], entry, locations) + ExpectedFrames(env, ids[1..], entry, locations)
  }

  lemma ChildRead(env: Env, data: Bytes, offset: nat, end: nat, formatId: nat, entry: ArtworkEntry, locations: Locations)
    requires formatId in entry.formats && MhiiChildFits(formatId, entry, locations)
    requires At(data, offset, MhiiChild(formatId, entry, locations))
    requires offset + |MhiiChild(formatId, entry, locations)| <= end <= |data|
    ensures ReadChild(env, data, offset, end) == Some(ExpectedChild(env, formatId, entry, locations))
    ensures ReadU32(data, offset + 8) == |MhiiChild(formatId, entry, locations)|
  {
    hide ExpectedFrame;
    hide MhniFits;
    hide MhodContainer;
    hide ReadChild;
    hide ReadU32;
    ContainerRead(env, data, offset, end, formatId, LocationOf(formatId, locations), entry.formats[formatId]);
  }

  lemma {:induction false} ChildrenRead(env: Env, data: Bytes, offset: nat, end: nat, ids: seq<nat>,
                                        entry: ArtworkEntry, locations: Locations)
    requires forall f | f in ids :: f in entry.formats && MhiiChildFits(f, entry, locations)
    requires At(data, offset, MhiiChildren(ids, entry, locations))
    requires offset + |MhiiChildren(ids, entry, locations)| <= end <= |data|
    ensures ReadChildren(env, data, offset, end, |ids|) == Some(ExpectedFrames(env, ids, entry, locations))
    decreases |ids|
  {
    hide ExpectedChild;
    hide MhiiChildFits;
    hide MhiiChild;
    hide ReadChild;
    hide ReadU32;
    if ids != [] {
      var f := ids[0];
      assert f in ids;
      MhiiChildrenFirst(ids, entry, locations);
      var first, rest := MhiiChild(f, entry, locations), MhiiChildren(ids[1..], entry, locations);
      AtSplit(data, offset, first, rest);
      ChildRead(env, data, offset, end, f, entry, locations);
      ChildrenRead(env, data, offset + |first|, end, ids[1..], entry, locations);
    }
  }

  lemma MhiiFields(entry: ArtworkEntry, children: nat, total: int)
    requires FitsU32(children) && FitsU32(total) && FitsU32(entry.imgId) && FitsU64(entry.dbTrackId) && FitsU32(entry.srcImgSize)
    ensures var h := MhiiHeader(entry, children, total);
      && h[0..4] == MHII && ReadU32(h, 4) == MHII_HEADER_SIZE && ReadU32(h, 8) == total
      && ReadU32(h, 12) == children && ReadU32(h, 16) == entry.imgId
      && ReadU64(h, 20) == entry.dbTrackId && ReadU32(h, 48) == entry.srcImgSize
  {
    hide Patch;
    hide TagHeader;
    var h0 := TagHeader(MHII, MHII_HEADER_SIZE, total);
    TagHeaderFields(MHII, MHII_HEADER_SIZE, total);
    var h1 := Keep(h0, 12, U32(children));
    var h2 := Keep(h1, 16, U32(entry.imgId));
    var h3 := Keep(h2, 20, U64(entry.dbTrackId));
    var h4 := Keep(h3, 48, U32(entry.srcImgSize));
    PatchRead(h0, 12, children);
    PatchRead(h1, 16, entry.imgId);
    PatchRead(h2, 20, entry.dbTrackId);
    PatchRead(h3, 48, entry.srcImgSize);
  }

  /** What reading back the item of `entry` must give: nothing when no frame is usable. */
  ghost function ExpectedEntry(env: Env, entry: ArtworkEntry, locations: Locations): seq<ExistingEntry>
    requires MhiiFits(entry, locations)
  {
    SortedOfSpec(entry.formats.Keys);
    var frames := ExpectedFrames(env, SortedOf(entry.formats.Keys), entry, locations);
    if frames == [] then []
    else [ExistingEntry(entry.imgId, entry.dbTrackId, entry.srcImgSize, FormatMap(frames))]
  }

  lemma ItemRead(env: Env, data: Bytes, offset: nat, end: nat, entry: ArtworkEntry, locations: Locations)
    requires MhiiFits(entry, locations)
    requires At(data, offset, Mhii(entry, locations)) && offset + |Mhii(entry, locations)| <= end <= |data|
    ensures ReadChecked(env, data, offset, end) == Some(ExpectedEntry(env, entry, locations))
    ensures ReadU32(data, offset + 8) == |Mhii(entry, locations)|
  {
    hide MhiiHeader;
    hide MhiiChildFits;
    hide MhiiChildren;
    hide ReadChildren;
    hide ExpectedFrames;
    hide SortedOf;
    hide ReadU32;
    hide ReadU64;
    SortedOfSpec(entry.formats.Keys);
    var ids := SortedOf(entry.formats.Keys);
    var children := MhiiChildren(ids, entry, locations);
    var total := MHII_HEADER_SIZE + |children|;
    var header := MhiiHeader(entry, |ids|, total);
    MhiiFields(entry, |ids|, total);
    HeadAt(data, offset, header, children);
    AtSplit(data, offset, header, children);
    AtRead(data, offset, header, 12);
    AtRead(data, offset, header, 16);
    AtRead(data, offset, header, 20);
    AtRead(data, offset, header, 48);
    ChildrenRead(env, data, offset + MHII_HEADER_SIZE, offset + total, ids, entry, locations);
  }

  lemma {:induction false} MhliChildrenFirst(entries: seq<ArtworkEntry>, locations: map<int, Locations>)
    requires entries != [] && forall e | e in entries :: e.imgId in locations
    ensures MhliChildren(entries, locations) ==
            Mhii(entries[0], locations[entries[0].imgId]) + MhliChildren(entries[1..], locations)
  {
    hide Mhii;
    var n := |entries| - 1;
    if n == 0 {
      assert entries[..0] == [] && entries[1..] == [];
    } else {
      MhliChildrenFirst(entries[..n], locations);
      assert entries[..n][1..] == entries[1..][..n - 1];
      assert entries[1..][n - 1] == entries[n] && entries[..n][0] == entries[0];
      var a, b, c := Mhii(entries[0], locations[entries[0].imgId]), MhliChildren(entries[1..][..n - 1], locations),
                     Mhii(entries[n], locations[entries[n].imgId]);
      assert a + b + c == a + (b + c);
    }
  }

  ghost function ExpectedEntries(env: Env, entries: seq<ArtworkEntry>, locations: map<int, Locations>): seq<ExistingEntry>
    requires forall e | e in entries :: e.imgId in locations && MhiiFits(e, locations[e.imgId])
  {
    if entries == [] then []
    else ExpectedEntry(env, entries[0], locations[entries[0].imgId]) + ExpectedEntries(env, entries[1..], locations)
  }

  lemma {:induction false} ItemsRead(env: Env, data: Bytes, offset: nat, end: nat,
                                     entries: seq<ArtworkEntry>, locations: map<int, Locations>)
    requires forall e | e in entries :: e.imgId in locations && MhiiFits(e, locations[e.imgId])
    requires At(data, offset, MhliChildren(entries, locations))
    requires offset + |MhliChildren(entries, locations)| <= end <= |data|
    ensures ReadItems(env, data, offset, end, |entries|) == Some(ExpectedEntries(env, entries, locations))
    decreases |entries|
  {
    hide Mhii;
    hide MhiiFits;
    hide ExpectedEntry;
    hide ReadChecked;
    hide ReadU32;
    if entries != [] {
      var e := entries[0];
      assert e in entries;
      MhliChildrenFirst(entries, locations);
      var first, rest := Mhii(e, locations[e.imgId]), MhliChildren(entries[1..], locations);
      AtSplit(data, offset, first, rest);
      ItemRead(env, data, offset, end, e, locations[e.imgId]);
      ItemsRead(env, data, offset + |first|, end, entries[1..], locations);
    }
  }

  lemma ImageListRead(env: Env, data: Bytes, offset: nat, end: nat, entries: seq<ArtworkEntry>, locations: map<int, Locations>)
    requires MhliFits(entries, locations)
    requires At(data, offset, Mhli(entries, locations)) && offset + |Mhli(entries, locations)| <= end <= |data|
    ensures ReadImageList(env, data, offset, end) == Some(ExpectedEntries(env, entries, locations))
  {
    hide TagHeader;
    hide MhiiFits;
    hide MhliChildren;
    hide ReadItems;
    hide ReadU32;
    hide ExpectedEntries;
    var header := TagHeader(MHLI, MHLI_HEADER_SIZE, |entries|);
    TagHeaderFields(MHLI, MHLI_HEADER_SIZE, |entries|);
    HeadAt(data, offset, header, MhliChildren(entries, locations));
    ItemsRead(env, data, offset + MHLI_HEADER_SIZE, end, entries, locations);
  }

  /** A dataset that is not the image list is stepped over. */
  lemma OtherDatasetRead(env: Env, data: Bytes, offset: nat, end: nat, dsType: int, child: Bytes)
    requires FitsU16(dsType) && dsType != IMAGE_LIST && FitsU32(|Mhsd(dsType, child)|)
    requires At(data, offset, Mhsd(dsType, child)) && offset + |Mhsd(dsType, child)| <= end <= |data|
    ensures ReadDataset(env, data, offset, end) == Some([])
    ensures ReadU32(data, offset + 8) == |Mhsd(dsType, child)|
  {
    hide TypedHeader;
    hide ReadU32;
    hide ReadU16;
    var header := TypedHeader(MHSD, MHSD_HEADER_SIZE, MHSD_HEADER_SIZE + |child|, dsType);
    TypedHeaderFields(MHSD, MHSD_HEADER_SIZE, MHSD_HEADER_SIZE + |child|, dsType);
    HeadAt(data, offset, header, child);
  }

  lemma ImageDatasetRead(env: Env, data: Bytes, offset: nat, end: nat, entries: seq<ArtworkEntry>, locations: map<int, Locations>)
    requires MhliFits(entries, locations)
    requires var ds := Mhsd(IMAGE_LIST, Mhli(entries, locations));
             FitsU32(|ds|) && At(data, offset, ds) && offset + |ds| <= end <= |data|
    ensures ReadDataset(env, data, offset, end) == Some(ExpectedEntries(env, entries, locations))
    ensures ReadU32(data, offset + 8) == |Mhsd(IMAGE_LIST, Mhli(entries, locations))|
  {
    hide TypedHeader;
    hide ReadU32;
    hide ReadU16;
    hide Mhli;
    hide MhiiFits;
    hide ExpectedEntries;
    hide ReadImageList;
    var child := Mhli(entries, locations);
    var header := TypedHeader(MHSD, MHSD_HEADER_SIZE, MHSD_HEADER_SIZE + |child|, IMAGE_LIST);
    TypedHeaderFields(MHSD, MHSD_HEADER_SIZE, MHSD_HEADER_SIZE + |child|, IMAGE_LIST);
    HeadAt(data, offset, header, child);
    ImageListRead(env, data, offset + MHSD_HEADER_SIZE, offset + MHSD_HEADER_SIZE + |child|, entries, locations);
  }

  lemma CopyKeeps(header: Bytes, reference: Bytes, lo: nat, hi: nat)
    requires 24 <= lo <= hi <= |header|
    ensures var r := CopyField(header, reference, lo, hi);
      && r[0..4] == header[0..4] && ReadU32(r, 4) == ReadU32(header, 4) && ReadU32(r, 8) == ReadU32(header, 8)
      && ReadU32(r, 20) == ReadU32(header, 20)
  {
    if |reference| >= hi {
      PatchKeepsHead(header, lo, reference[lo..hi]);
      PatchKeeps(header, lo, reference[lo..hi], 20);
    }
  }

  lemma MhfdFields(datasets: nat, nextId: int, reference: Bytes, total: int)
    requires FitsU32(datasets) && FitsU32(total) && FitsU32(nextId)
    ensures var h := MhfdHeader(datasets, nextId, reference, total);
      && h[0..4] == MHFD && ReadU32(h, 4) == MHFD_HEADER_SIZE && ReadU32(h, 8) == total && ReadU32(h, 20) == datasets
  {
    hide Patch;
    hide TagHeader;
    hide CopyField;
    var h0 := TagHeader(MHFD, MHFD_HEADER_SIZE, total);
    TagHeaderFields(MHFD, MHFD_HEADER_SIZE, total);
    var h1 := Keep(h0, 16, U32(2));
    var h2 := Keep(h1, 20, U32(datasets));
    PatchRead(h1, 20, datasets);
    var h3 := Keep(h2, 28, U32(nextId));
    var h4 := CopyField(h3, reference, 32, 48);
    CopyKeeps(h3, reference, 32, 48);
    var h5 := Keep(h4, 48, U32(2));
    CopyKeeps(h5, reference, 60, 68);
  }

  /** Reading back a written database gives exactly the entries that were written, in order. */
  lemma DatabaseRead(env: Env, source: Source)
    requires source.Fits()
    ensures ReadDatabase(env, source.Database()) == Some(ExpectedEntries(env, source.entries, source.locations))
  {
    hide MhfdHeader;
    hide ReadU32;
    hide Mhli;
    hide Mhlf;
    hide Mhla;
    hide Mhsd;
    hide MhiiFits;
    hide ReadDatasets;
    hide ExpectedEntries;
    var data := source.Database();
    var body := source.Datasets();
    var total := MHFD_HEADER_SIZE + |body|;
    var header := MhfdHeader(3, source.nextId, source.reference, total);
    MhfdFields(3, source.nextId, source.reference, total);
    assert At(data, 0, header + body) by { assert data[0..|data|] == data; }
    HeadAt(data, 0, header, body);
    AtSplit(data, 0, header, body);
    AtRead(data, 0, header, 20);
    DatasetsRead(env, source, data, MHFD_HEADER_SIZE);
  }

  lemma DatasetsRead(env: Env, source: Source, data: Bytes, offset: nat)
    requires source.Fits() && At(data, offset, source.Datasets()) && |data| == offset + |source.Datasets()|
    ensures ReadDatasets(env, data, offset, |data|, 3) == Some(ExpectedEntries(env, source.entries, source.locations))
  {
    hide ReadU32;
    hide ReadDatasets;
    hide ReadDataset;
    hide Mhli;
    hide Mhlf;
    hide Mhla;
    hide Mhsd;
    hide MhiiFits;
    hide ExpectedEntries;
    var d1 := Mhsd(IMAGE_LIST, Mhli(source.entries, source.locations));
    var d2 := Mhsd(PHOTO_ALBUM_LIST, Mhla());
    var d3 := Mhsd(FILE_LIST, Mhlf(source.formatIds, source.imageSizes));
    AtSplit(data, offset, d1 + d2, d3);
    AtSplit(data, offset, d1, d2);
    MhlaLength();
    var end := |data|;
    ImageDatasetRead(env, data, offset, end, source.entries, source.locations);
    OtherDatasetRead(env, data, offset + |d1|, end, PHOTO_ALBUM_LIST, Mhla());
    OtherDatasetRead(env, data, offset + |d1| + |d2|, end, FILE_LIST, Mhlf(source.formatIds, source.imageSizes));
    DatasetStep(env, data, offset, end, 3);
    DatasetStep(env, data, offset + |d1|, end, 2);
    DatasetStep(env, data, offset + |d1| + |d2|, end, 1);
    LastChildren(env, data, end, end);
    PrependNothing(ReadDatasets(env, data, offset + |d1| + |d2|, end, 1));
    PrependNothing(ReadDatasets(env, data, end, end, 0));
    var all := ExpectedEntries(env, source.entries, source.locations);
    assert all + [] == all;
  }

  lemma MhlaLength()
    ensures |Mhsd(PHOTO_ALBUM_LIST, Mhla())| == MHSD_HEADER_SIZE + MHLA_HEADER_SIZE
  {
  }
}
