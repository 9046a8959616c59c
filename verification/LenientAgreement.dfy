/** The lenient parser and the strict reader see the same images in a written ArtworkDB. */
module LenientAgreement {
  import opened Outcomes
  import opened Bytes
  import opened ArtworkTypes
  import opened ArtworkDbFormat
  import opened ArtworkDbReader
  import opened ArtworkDbRoundTrip
  import opened LenientParser
  import Utf16
  import Text
  import IthmbPaths

  /** What the lenient parser makes of one frame that was written. */
  function FrameNode(formatId: nat, location: IthmbLocation, p: FormatPayload): (r: Node)
    requires MhniFits(formatId, location, p)
    ensures r.ContainerObject? && r.kind == THUMBNAIL_IMAGE
  {
    ContainerObject(THUMBNAIL_IMAGE,
      ImageName(NameFields(formatId, location.offset, p.size, Max(0, p.vpad), Max(0, p.hpad), p.height, p.width),
        [StringObject(FILE_NAME, Text.RStripNul(":" + IthmbPaths.Normalize(formatId, location.filename)))]))
  }

  function ChildNodes(ids: seq<nat>, entry: ArtworkEntry, locations: Locations): seq<Node>
    requires forall f | f in ids :: f in entry.formats && MhiiChildFits(f, entry, locations)
  {
    hide MhiiChildFits;
    if ids == [] then [] else [ChildNode(ids[0], entry, locations)] + ChildNodes(ids[1..], entry, locations)
  }

  function ChildNode(f: nat, entry: ArtworkEntry, locations: Locations): Node
    requires f in entry.formats && MhiiChildFits(f, entry, locations)
  {
    FrameNode(f, LocationOf(f, locations), entry.formats[f])
  }

  /** The image node of one entry: its formats in increasing order. */
  ghost function ImageNode(entry: ArtworkEntry, locations: Locations): Node
    requires MhiiFits(entry, locations)
  {
    SortedOfSpec(entry.formats.Keys);
    Image(entry.imgId, entry.dbTrackId, entry.srcImgSize, ChildNodes(SortedOf(entry.formats.Keys), entry, locations))
  }

  ghost function ImageNodes(entries: seq<ArtworkEntry>, locations: map<int, Locations>): seq<Node>
    requires forall e | e in entries :: e.imgId in locations && MhiiFits(e, locations[e.imgId])
  {
    if entries == [] then [] else [ImageNode(entries[0], locations[entries[0].imgId])] + ImageNodes(entries[1..], locations)
  }

  lemma StringDecodes(utf8: Bytes -> string, data: Bytes, offset: nat, value: string)
    requires At(data, offset, StringBody(value)) && FitsU32(|Utf16.Encode(value)|)
    ensures StringAt(utf8, data, offset, offset + |StringBody(value)|) == Some(Text.RStripNul(value))
  {
    hide Utf16.Encode;
    hide StringBody;
    hide ReadU32;
    hide Utf16.DecodeReplace;
    hide Text.RStripNul;
    BodyParts(data, offset, value);
    Utf16.DecodeEncoded(value);
  }

  lemma StringParsed(utf8: Bytes -> string, data: Bytes, offset: nat, value: string, depth: nat)
    requires At(data, offset, MhodString(value)) && depth >= 1
    requires FitsU32(|Utf16.Encode(value)|) && FitsU32(|MhodString(value)|)
    ensures ParseChunk(utf8, data, offset, depth)
            == Some(Parsed(StringObject(FILE_NAME, Text.RStripNul(value)), Some(offset + |MhodString(value)|)))
  {
    hide StringBody;
    hide TypedHeader;
    hide StringAt;
    hide ReadU32;
    hide ReadU16;
    var body := StringBody(value);
    var total := MHOD_HEADER_SIZE + |body|;
    var header := TypedHeader(MHOD, MHOD_HEADER_SIZE, total, FILE_NAME);
    TypedHeaderFields(MHOD, MHOD_HEADER_SIZE, total, FILE_NAME);
    HeadAt(data, offset, header, body);
    StringDecodes(utf8, data, offset + MHOD_HEADER_SIZE, value);
    ObjectParse(utf8, data, offset, depth);
  }

  /** An object chunk is dispatched to its parser. */
  lemma ObjectParse(utf8: Bytes -> string, data: Bytes, offset: nat, depth: nat)
    requires offset + 12 <= |data| && HasTag(data, offset, MHOD) && depth >= 1
    ensures ParseChunk(utf8, data, offset, depth)
            == ParseObject(utf8, data, offset, ReadU32(data, offset + 4), ReadU32(data, offset + 8), depth - 1)
  {
  }

  lemma RowOfOne(utf8: Bytes -> string, data: Bytes, offset: nat, depth: nat, node: Node, end: nat)
    requires ParseChunk(utf8, data, offset, depth) == Some(Parsed(node, Some(end)))
    ensures ParseRow(utf8, data, offset, 1, depth) == Some(Row([node], end))
  {
    hide ParseChunk;
    assert ParseRow(utf8, data, end, 0, depth) == Some(Row([], end));
    assert [node] + [] == [node];
  }

  lemma SmallSigned(data: Bytes, offset: nat)
    requires offset + 2 <= |data| && ReadU16(data, offset) <= 0x7FFF
    ensures ReadI16(data, offset) == ReadU16(data, offset)
  {
  }

  lemma NameFieldsRead(data: Bytes, offset: nat, formatId: nat, location: IthmbLocation, p: FormatPayload)
    requires MhniFits(formatId, location, p) && At(data, offset, Mhni(formatId, location, p))
    ensures offset + 44 <= |data| && ReadU32(data, offset + 12) == 1
    ensures FieldsAt(data, offset) == NameFields(formatId, location.offset, p.size, Max(0, p.vpad), Max(0, p.hpad), p.height, p.width)
    ensures HasTag(data, offset, MHNI) && ReadU32(data, offset + 4) == MHNI_HEADER_SIZE
    ensures ReadU32(data, offset + 8) == |Mhni(formatId, location, p)|
    ensures At(data, offset + MHNI_HEADER_SIZE, MhniName(formatId, location.filename))
  {
    hide MhniHeader;
    hide ReadU32;
    hide ReadU16;
    hide MhniName;
    hide ReadI16;
    var name := MhniName(formatId, location.filename);
    var total := MHNI_HEADER_SIZE + |name|;
    var header := MhniHeader(formatId, location, p, total);
    MhniFields(formatId, location, p, total);
    HeadAt(data, offset, header, name);
    AtSplit(data, offset, header, name);
    AtRead(data, offset, header, 12);
    AtRead(data, offset, header, 16);
    AtRead(data, offset, header, 20);
    AtRead(data, offset, header, 24);
    AtRead(data, offset, header, 28);
    AtRead(data, offset, header, 30);
    AtRead(data, offset, header, 32);
    AtRead(data, offset, header, 34);
    SmallSigned(data, offset + 28);
    SmallSigned(data, offset + 30);
  }

  /** A name chunk is dispatched to its parser. */
  lemma NameParse(utf8: Bytes -> string, data: Bytes, offset: nat, depth: nat, row: Row)
    requires offset + 44 <= |data| && HasTag(data, offset, MHNI) && depth >= 1
    requires ParseRow(utf8, data, offset + ReadU32(data, offset + 4), ReadU32(data, offset + 12), depth - 1) == Some(row)
    requires forall n | n in row.nodes :: IsObject(n)
    ensures ParseChunk(utf8, data, offset, depth)
            == Some(Parsed(ImageName(FieldsAt(data, offset), row.nodes), Some(offset + ReadU32(data, offset + 8))))
  {
    hide ReadU32;
    hide FieldsAt;
    hide ParseRow;
  }

  lemma NameParsed(utf8: Bytes -> string, data: Bytes, offset: nat, formatId: nat, location: IthmbLocation, p: FormatPayload, depth: nat)
    requires MhniFits(formatId, location, p) && At(data, offset, Mhni(formatId, location, p)) && depth >= 2
    ensures ParseChunk(utf8, data, offset, depth)
            == Some(Parsed(FrameNode(formatId, location, p).child, Some(offset + |Mhni(formatId, location, p)|)))
  {
    hide Mhni;
    hide MhodString;
    hide ReadU32;
    hide FieldsAt;
    hide Text.RStripNul;
    hide IthmbPaths.Normalize;
    hide ParseChunk;
    hide ParseRow;
    var value := ":" + IthmbPaths.Normalize(formatId, location.filename);
    NameFieldsRead(data, offset, formatId, location, p);
    StringParsed(utf8, data, offset + MHNI_HEADER_SIZE, value, depth - 1);
    RowOfOne(utf8, data, offset + MHNI_HEADER_SIZE, depth - 1, StringObject(FILE_NAME, Text.RStripNul(value)),
             offset + MHNI_HEADER_SIZE + |MhodString(value)|);
    NameParse(utf8, data, offset, depth, Row([StringObject(FILE_NAME, Text.RStripNul(value))], offset + MHNI_HEADER_SIZE + |MhodString(value)|));
  }

  /** A container chunk gives what its child parses to. */
  lemma ContainerParse(utf8: Bytes -> string, data: Bytes, offset: nat, depth: nat, child: Parsed)
    requires offset + 14 <= |data| && HasTag(data, offset, MHOD) && depth >= 1 && ReadU16(data, offset + 12) == THUMBNAIL_IMAGE
    requires ParseChunk(utf8, data, offset + ReadU32(data, offset + 4), depth - 1) == Some(child)
    ensures ParseChunk(utf8, data, offset, depth)
            == Some(Parsed(ContainerObject(THUMBNAIL_IMAGE, child.node), Some(offset + ReadU32(data, offset + 8))))
  {
    hide ReadU32;
    hide ReadU16;
    ObjectParse(utf8, data, offset, depth);
  }

  lemma FrameNodeParsed(utf8: Bytes -> string, data: Bytes, offset: nat, formatId: nat, location: IthmbLocation, p: FormatPayload, depth: nat)
    requires MhniFits(formatId, location, p) && FitsU32(|MhodContainer(Mhni(formatId, location, p))|)
    requires At(data, offset, MhodContainer(Mhni(formatId, location, p))) && depth >= 3
    ensures ParseChunk(utf8, data, offset, depth)
            == Some(Parsed(FrameNode(formatId, location, p), Some(offset + |MhodContainer(Mhni(formatId, location, p))|)))
  {
    hide TypedHeader;
    hide Mhni;
    hide MhniFits;
    hide ReadU32;
    hide ReadU16;
    hide ParseChunk;
    hide ParseObject;
    hide At;
    hide FrameNode;
    hide HasTag;
    var child := Mhni(formatId, location, p);
    var total := MHOD_HEADER_SIZE + |child|;
    var header := TypedHeader(MHOD, MHOD_HEADER_SIZE, total, THUMBNAIL_IMAGE);
    TypedHeaderFields(MHOD, MHOD_HEADER_SIZE, total, THUMBNAIL_IMAGE);
    HeadAt(data, offset, header, child);
    AtWithin(data, offset, header + child);
    NameParsed(utf8, data, offset + MHOD_HEADER_SIZE, formatId, location, p, depth - 1);
    ContainerParse(utf8, data, offset, depth, Parsed(FrameNode(formatId, location, p).child, Some(offset + total)));
  }

  lemma {:induction false} ChildNodesParsed(utf8: Bytes -> string, data: Bytes, offset: nat, ids: seq<nat>, entry: ArtworkEntry,
                                            locations: Locations, depth: nat)
    requires forall f | f in ids :: f in entry.formats && MhiiChildFits(f, entry, locations)
    requires At(data, offset, MhiiChildren(ids, entry, locations)) && depth >= 3
    ensures ParseRow(utf8, data, offset, |ids|, depth)
            == Some(Row(ChildNodes(ids, entry, locations), offset + |MhiiChildren(ids, entry, locations)|))
    decreases |ids|
  {
    hide MhiiChild;
    hide MhiiChildFits;
    hide ChildNode;
    hide ParseChunk;
    if ids != [] {
      var f := ids[0];
      assert f in ids;
      MhiiChildrenFirst(ids, entry, locations);
      var first := MhiiChild(f, entry, locations);
      AtSplit(data, offset, first, MhiiChildren(ids[1..], entry, locations));
      ChildParsed(utf8, data, offset, f, entry, locations, depth);
      ChildNodesParsed(utf8, data, offset + |first|, ids[1..], entry, locations, depth);
    }
  }

  lemma ChildParsed(utf8: Bytes -> string, data: Bytes, offset: nat, f: nat, entry: ArtworkEntry, locations: Locations, depth: nat)
    requires f in entry.formats && MhiiChildFits(f, entry, locations)
    requires At(data, offset, MhiiChild(f, entry, locations)) && depth >= 3
    ensures ParseChunk(utf8, data, offset, depth)
            == Some(Parsed(ChildNode(f, entry, locations), Some(offset + |MhiiChild(f, entry, locations)|)))
  {
    hide ParseChunk;
    hide MhniFits;
    hide MhodContainer;
    hide FrameNode;
    hide LocationOf;
    hide Mhni;
    hide At;
    FrameNodeParsed(utf8, data, offset, f, LocationOf(f, locations), entry.formats[f], depth);
  }

  lemma {:induction false} AllContainers(ids: seq<nat>, entry: ArtworkEntry, locations: Locations)
    requires forall f | f in ids :: f in entry.formats && MhiiChildFits(f, entry, locations)
    ensures Containers(ChildNodes(ids, entry, locations)) == ChildNodes(ids, entry, locations)
    ensures forall n | n in ChildNodes(ids, entry, locations) :: IsObject(n)
    decreases |ids|
  {
    hide MhiiChildFits;
    if ids != [] {
      assert ids[0] in ids;
      AllContainers(ids[1..], entry, locations);
      var nodes := ChildNodes(ids, entry, locations);
      assert nodes[1..] == ChildNodes(ids[1..], entry, locations);
    }
  }

  lemma ImageParsed(utf8: Bytes -> string, data: Bytes, offset: nat, entry: ArtworkEntry, locations: Locations, depth: nat)
    requires MhiiFits(entry, locations) && At(data, offset, Mhii(entry, locations)) && depth >= 4
    ensures ParseChunk(utf8, data, offset, depth)
            == Some(Parsed(ImageNode(entry, locations), Some(offset + |Mhii(entry, locations)|)))
  {
    hide MhiiHeader;
    hide MhiiChildFits;
    hide MhiiChildren;
    hide ChildNodes;
    hide SortedOf;
    hide ReadU32;
    hide ReadU64;
    hide ParseRow;
    hide Containers;
    SortedOfSpec(entry.formats.Keys);
    var ids := SortedOf(entry.formats.Keys);
    var children := MhiiChildren(ids, entry, locations);
    var total := MHII_HEADER_SIZE + |children|;
    var header := MhiiHeader(entry, |ids|, total);
    MhiiFields(entry, |ids|, total);
    HeadAt(data, offset, header, children);
    AtSplit(data, offset, header, children);
    AtRead(data, offset, header, 12);
    AtRead(data, offset, header, 16);
    AtRead(data, offset, header, 20);
    AtRead(data, offset, header, 48);
    ChildNodesParsed(utf8, data, offset + MHII_HEADER_SIZE, ids, entry, locations, depth - 1);
    AllContainers(ids, entry, locations);
  }

  lemma {:induction false} ImagesParsed(utf8: Bytes -> string, data: Bytes, offset: nat, entries: seq<ArtworkEntry>,
                                        locations: map<int, Locations>, depth: nat)
    requires forall e | e in entries :: e.imgId in locations && MhiiFits(e, locations[e.imgId])
    requires At(data, offset, MhliChildren(entries, locations)) && depth >= 4
    ensures ParseRow(utf8, data, offset, |entries|, depth)
            == Some(Row(ImageNodes(entries, locations), offset + |MhliChildren(entries, locations)|))
    decreases |entries|
  {
    hide Mhii;
    hide MhiiFits;
    hide ImageNode;
    hide ParseChunk;
    if entries != [] {
      var e := entries[0];
      assert e in entries;
      MhliChildrenFirst(entries, locations);
      var first := Mhii(e, locations[e.imgId]);
      AtSplit(data, offset, first, MhliChildren(entries[1..], locations));
      ImageParsed(utf8, data, offset, e, locations[e.imgId], depth);
      ImagesParsed(utf8, data, offset + |first|, entries[1..], locations, depth);
    }
  }

  lemma ListParsed(utf8: Bytes -> string, data: Bytes, offset: nat, entries: seq<ArtworkEntry>, locations: map<int, Locations>, depth: nat)
    requires MhliFits(entries, locations) && At(data, offset, Mhli(entries, locations)) && depth >= 5
    ensures ParseChunk(utf8, data, offset, depth)
            == Some(Parsed(ImageList(ImageNodes(entries, locations)), Some(offset + |Mhli(entries, locations)|)))
  {
    hide TagHeader;
    hide MhiiFits;
    hide MhliChildren;
    hide ParseRow;
    hide ReadU32;
    hide ImageNodes;
    var header := TagHeader(MHLI, MHLI_HEADER_SIZE, |entries|);
    TagHeaderFields(MHLI, MHLI_HEADER_SIZE, |entries|);
    HeadAt(data, offset, header, MhliChildren(entries, locations));
    ImagesParsed(utf8, data, offset + MHLI_HEADER_SIZE, entries, locations, depth - 1);
  }

  /** A dataset gives what its child parses to, and ends where its length says. */
  lemma DatasetParsed(utf8: Bytes -> string, data: Bytes, offset: nat, kind: nat, child: Bytes, node: Node, next: Option<nat>, depth: nat)
    requires FitsU16(kind) && FitsU32(|Mhsd(kind, child)|) && At(data, offset, Mhsd(kind, child)) && depth >= 2
    requires ParseChunk(utf8, data, offset + MHSD_HEADER_SIZE, depth - 1) == Some(Parsed(node, next))
    ensures ParseChunk(utf8, data, offset, depth) == Some(Parsed(Dataset(kind, node), Some(offset + |Mhsd(kind, child)|)))
  {
    hide TypedHeader;
    hide ReadU32;
    hide ReadU16;
    var header := TypedHeader(MHSD, MHSD_HEADER_SIZE, MHSD_HEADER_SIZE + |child|, kind);
    TypedHeaderFields(MHSD, MHSD_HEADER_SIZE, MHSD_HEADER_SIZE + |child|, kind);
    HeadAt(data, offset, header, child);
  }

  lemma DatasetChild(data: Bytes, offset: nat, kind: nat, child: Bytes)
    requires At(data, offset, Mhsd(kind, child))
    ensures At(data, offset + MHSD_HEADER_SIZE, child)
  {
    hide TypedHeader;
    AtSplit(data, offset, TypedHeader(MHSD, MHSD_HEADER_SIZE, MHSD_HEADER_SIZE + |child|, kind), child);
  }

  /** A list whose parser is not written. */
  lemma EmptyParsed(utf8: Bytes -> string, data: Bytes, offset: nat, tag: Bytes, size: nat, third: int, body: Bytes, depth: nat)
    requires tag in EMPTY_TAGS && |tag| == 4 && size >= 14 && FitsU32(size) && FitsU32(third)
    requires At(data, offset, TagHeader(tag, size, third) + body) && depth >= 1
    ensures ParseChunk(utf8, data, offset, depth) == Some(Parsed(Empty, None))
  {
    hide TagHeader;
    hide ReadU32;
    hide ParseRow;
    TagHeaderFields(tag, size, third);
    HeadAt(data, offset, TagHeader(tag, size, third), body);
  }

  /** What the lenient parser gives for a written database. */
  ghost function FileNode(source: Source): Node
    requires source.Fits()
  {
    File([Dataset(IMAGE_LIST, ImageList(ImageNodes(source.entries, source.locations))),
          Dataset(PHOTO_ALBUM_LIST, Empty), Dataset(FILE_LIST, Empty)])
  }

  lemma DatasetsParsed(utf8: Bytes -> string, data: Bytes, offset: nat, source: Source, depth: nat)
    requires source.Fits() && At(data, offset, source.Datasets()) && depth >= 6
    ensures ParseRow(utf8, data, offset, 3, depth) == Some(Row(FileNode(source).datasets, offset + |source.Datasets()|))
  {
    hide Mhli;
    hide Mhlf;
    hide Mhla;
    hide Mhsd;
    hide MhiiFits;
    hide ImageNodes;
    hide ParseChunk;
    var list, albums, files := Mhli(source.entries, source.locations), Mhla(), Mhlf(source.formatIds, source.imageSizes);
    var d1, d2, d3 := Mhsd(IMAGE_LIST, list), Mhsd(PHOTO_ALBUM_LIST, albums), Mhsd(FILE_LIST, files);
    AtSplit(data, offset, d1 + d2, d3);
    AtSplit(data, offset, d1, d2);
    MhlaLength();
    var o2, o3 := offset + |d1|, offset + |d1| + |d2|;
    DatasetChild(data, offset, IMAGE_LIST, list);
    DatasetChild(data, o2, PHOTO_ALBUM_LIST, albums);
    DatasetChild(data, o3, FILE_LIST, files);
    ListParsed(utf8, data, offset + MHSD_HEADER_SIZE, source.entries, source.locations, depth - 1);
    AlbumsParsed(utf8, data, o2 + MHSD_HEADER_SIZE, depth - 1);
    FilesParsed(utf8, data, o3 + MHSD_HEADER_SIZE, source.formatIds, source.imageSizes, depth - 1);
    var images := ImageList(ImageNodes(source.entries, source.locations));
    DatasetParsed(utf8, data, offset, IMAGE_LIST, list, images, Some(offset + MHSD_HEADER_SIZE + |list|), depth);
    DatasetParsed(utf8, data, o2, PHOTO_ALBUM_LIST, albums, Empty, None, depth);
    DatasetParsed(utf8, data, o3, FILE_LIST, files, Empty, None, depth);
    RowOfThree(utf8, data, offset, o2, o3, o3 + |d3|, depth, Dataset(IMAGE_LIST, images), Dataset(PHOTO_ALBUM_LIST, Empty), Dataset(FILE_LIST, Empty));
  }

  lemma AlbumsParsed(utf8: Bytes -> string, data: Bytes, offset: nat, depth: nat)
    requires At(data, offset, Mhla()) && depth >= 1
    ensures ParseChunk(utf8, data, offset, depth) == Some(Parsed(Empty, None))
  {
    hide ParseChunk;
    hide TagHeader;
    assert Mhla() == TagHeader(MHLA, MHLA_HEADER_SIZE, 0) + [];
    EmptyParsed(utf8, data, offset, MHLA, MHLA_HEADER_SIZE, 0, [], depth);
  }

  lemma FilesParsed(utf8: Bytes -> string, data: Bytes, offset: nat, formatIds: seq<nat>, imageSizes: map<nat, int>, depth: nat)
    requires MhlfFits(formatIds, imageSizes) && At(data, offset, Mhlf(formatIds, imageSizes)) && depth >= 1
    ensures ParseChunk(utf8, data, offset, depth) == Some(Parsed(Empty, None))
  {
    hide ParseChunk;
    hide TagHeader;
    EmptyParsed(utf8, data, offset, MHLF, MHLF_HEADER_SIZE, |formatIds|, MhlfChildren(formatIds, imageSizes), depth);
  }

  lemma RowOfThree(utf8: Bytes -> string, data: Bytes, o1: nat, o2: nat, o3: nat, end: nat, depth: nat, a: Node, b: Node, c: Node)
    requires ParseChunk(utf8, data, o1, depth) == Some(Parsed(a, Some(o2)))
    requires ParseChunk(utf8, data, o2, depth) == Some(Parsed(b, Some(o3)))
    requires ParseChunk(utf8, data, o3, depth) == Some(Parsed(c, Some(end)))
    ensures ParseRow(utf8, data, o1, 3, depth) == Some(Row([a, b, c], end))
  {
    hide ParseChunk;
    RowOfOne(utf8, data, o3, depth, c, end);
    assert ParseRow(utf8, data, o2, 2, depth) == Some(Row([b] + [c], end));
    assert [a] + ([b] + [c]) == [a, b, c];
  }

  /** The lenient parser reads every written database, whatever the nesting limit beyond seven. */
  lemma LenientReads(utf8: Bytes -> string, source: Source, depth: nat)
    requires source.Fits() && depth >= 7
    ensures ParseChunk(utf8, source.Database(), 0, depth) == Some(Parsed(FileNode(source), Some(|source.Database()|)))
  {
    hide MhfdHeader;
    hide ReadU32;
    hide Mhli;
    hide Mhlf;
    hide Mhla;
    hide Mhsd;
    hide MhiiFits;
    hide ParseRow;
    hide ImageNodes;
    var data := source.Database();
    var body := source.Datasets();
    var total := MHFD_HEADER_SIZE + |body|;
    var header := MhfdHeader(3, source.nextId, source.reference, total);
    MhfdFields(3, source.nextId, source.reference, total);
    assert At(data, 0, header + body) by { assert data[0..|data|] == data; }
    HeadAt(data, 0, header, body);
    AtSplit(data, 0, header, body);
    AtRead(data, 0, header, 20);
    DatasetsParsed(utf8, data, MHFD_HEADER_SIZE, source, depth - 1);
  }

  /** The file name that an image name carries. */
  function NameOf(names: seq<Node>): string {
    if names == [] then ""
    else if names[0].StringObject? && names[0].kind == FILE_NAME then names[0].text
    else NameOf(names[1..])
  }

  /** What the strict reader keeps of a frame that the lenient parser shows. */
  function Kept(env: Env, container: Node): seq<Frame> {
    if container.ContainerObject? && container.kind == THUMBNAIL_IMAGE && container.child.ImageName? then
      var f := container.child.fields;
      var filename := IthmbPaths.Normalize(f.formatId, NameOf(container.child.names));
      if env.present(IthmbPaths.Normalize(f.formatId, filename)) && f.size > 0 then
        [(f.formatId, ExistingFormatRef(filename, f.offset, f.size, Max(1, f.width), Max(1, f.height), Max(0, f.hpad), Max(0, f.vpad)))]
      else []
    else []
  }

  function KeptFrames(env: Env, containers: seq<Node>): seq<Frame> {
    if containers == [] then [] else Kept(env, containers[0]) + KeptFrames(env, containers[1..])
  }

  /** The strict reader's entries, from the lenient parser's images. */
  function KeptEntries(env: Env, images: seq<Node>): seq<ExistingEntry> {
    if images == [] then []
    else
      (if images[0].Image? && KeptFrames(env, images[0].containers) != []
       then [ExistingEntry(images[0].imgId, images[0].songId, images[0].srcImgSize, FormatMap(KeptFrames(env, images[0].containers)))]
       else [])
      + KeptEntries(env, images[1..])
  }

  lemma FrameKept(env: Env, formatId: nat, location: IthmbLocation, p: FormatPayload)
    requires MhniFits(formatId, location, p)
    ensures Kept(env, FrameNode(formatId, location, p)) == ExpectedFrame(env, formatId, location, p)
  {
    hide IthmbPaths.Normalize;
    hide Text.RStripNul;
    hide MhniName;
    hide Mhni;
  }

  lemma {:induction false} FramesKept(env: Env, ids: seq<nat>, entry: ArtworkEntry, locations: Locations)
    requires forall f | f in ids :: f in entry.formats && MhiiChildFits(f, entry, locations)
    ensures KeptFrames(env, ChildNodes(ids, entry, locations)) == ExpectedFrames(env, ids, entry, locations)
    decreases |ids|
  {
    hide MhiiChildFits;
    hide Kept;
    hide ChildNode;
    hide ExpectedChild;
    if ids != [] {
      assert ids[0] in ids;
      FramesKept(env, ids[1..], entry, locations);
      ChildKept(env, ids[0], entry, locations);
      assert ChildNodes(ids, entry, locations)[1..] == ChildNodes(ids[1..], entry, locations);
    }
  }

  lemma ChildKept(env: Env, f: nat, entry: ArtworkEntry, locations: Locations)
    requires f in entry.formats && MhiiChildFits(f, entry, locations)
    ensures Kept(env, ChildNode(f, entry, locations)) == ExpectedChild(env, f, entry, locations)
  {
    hide Kept;
    hide FrameNode;
    hide ExpectedFrame;
    hide MhniFits;
    FrameKept(env, f, LocationOf(f, locations), entry.formats[f]);
  }

  lemma {:induction false} EntriesKept(env: Env, entries: seq<ArtworkEntry>, locations: map<int, Locations>)
    requires forall e | e in entries :: e.imgId in locations && MhiiFits(e, locations[e.imgId])
    ensures KeptEntries(env, ImageNodes(entries, locations)) == ExpectedEntries(env, entries, locations)
    decreases |entries|
  {
    hide MhiiFits;
    hide ImageNode;
    hide ExpectedEntry;
    hide KeptFrames;
    if entries != [] {
      var e := entries[0];
      assert e in entries;
      EntriesKept(env, entries[1..], locations);
      EntryKept(env, e, locations[e.imgId]);
      assert ImageNodes(entries, locations)[1..] == ImageNodes(entries[1..], locations);
    }
  }

  lemma EntryKept(env: Env, e: ArtworkEntry, locations: Locations)
    requires MhiiFits(e, locations)
    ensures var image := ImageNode(e, locations);
      && image.Image?
      && (if KeptFrames(env, image.containers) != []
          then [ExistingEntry(image.imgId, image.songId, image.srcImgSize, FormatMap(KeptFrames(env, image.containers)))]
          else []) == ExpectedEntry(env, e, locations)
  {
    hide MhiiChildFits;
    hide KeptFrames;
    hide ChildNodes;
    hide ExpectedFrames;
    hide SortedOf;
    SortedOfSpec(e.formats.Keys);
    FramesKept(env, SortedOf(e.formats.Keys), e, locations);
  }

  /** On every database the writer builds, the strict reader's entries are the lenient parser's
      images, in the same order and with the same fields, less the frames whose files are missing. */
  lemma ReadersAgree(env: Env, source: Source, depth: nat)
    requires source.Fits() && depth >= 7
    ensures var lenient := ParseChunk(env.utf8, source.Database(), 0, depth);
      && lenient.Some? && lenient.value.node.File? && lenient.value.node.datasets != []
      && lenient.value.node.datasets[0].Dataset? && lenient.value.node.datasets[0].child.ImageList?
      && ReadDatabase(env, source.Database()) == Some(KeptEntries(env, lenient.value.node.datasets[0].child.images))
  {
    hide ParseChunk;
    hide ReadDatabase;
    hide MhiiFits;
    hide ImageNodes;
    hide KeptEntries;
    hide ExpectedEntries;
    LenientReads(env.utf8, source, depth);
    DatabaseRead(env, source);
    EntriesKept(env, source.entries, source.locations);
  }
}
