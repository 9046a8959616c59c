/** The bytes of an ArtworkDB: mhfd > mhsd > mhli > mhii > mhod > mhni > mhod. */
module ArtworkDbFormat {
  import opened Bytes
  import opened ArtworkTypes
  import Utf16
  import IthmbPaths

  const MHFD: Bytes := [0x6D, 0x68, 0x66, 0x64]
  const MHSD: Bytes := [0x6D, 0x68, 0x73, 0x64]
  const MHLI: Bytes := [0x6D, 0x68, 0x6C, 0x69]
  const MHLA: Bytes := [0x6D, 0x68, 0x6C, 0x61]
  const MHLF: Bytes := [0x6D, 0x68, 0x6C, 0x66]
  const MHII: Bytes := [0x6D, 0x68, 0x69, 0x69]
  const MHIF: Bytes := [0x6D, 0x68, 0x69, 0x66]
  const MHNI: Bytes := [0x6D, 0x68, 0x6E, 0x69]
  const MHOD: Bytes := [0x6D, 0x68, 0x6F, 0x64]

  const MHFD_HEADER_SIZE := 132
  const MHSD_HEADER_SIZE := 96
  const MHLI_HEADER_SIZE := 92
  const MHLA_HEADER_SIZE := 92
  const MHLF_HEADER_SIZE := 92
  const MHII_HEADER_SIZE := 152
  const MHOD_HEADER_SIZE := 24
  const MHNI_HEADER_SIZE := 76
  const MHIF_HEADER_SIZE := 124

  const IMAGE_LIST := 1
  const PHOTO_ALBUM_LIST := 2
  const FILE_LIST := 3

  const THUMBNAIL_IMAGE := 2
  const FILE_NAME := 3

  const UTF16_ENCODING := 2

  type Locations = map<nat, IthmbLocation>

  /** `encode_mhod_string_body` for a file name. */
  function StringBody(value: string): Bytes {
    var encoded := Utf16.Encode(value);
    U32(|encoded|) + [UTF16_ENCODING] + Zeros(3) + Zeros(4) + encoded + Zeros((4 - |encoded| % 4) % 4)
  }

  function TagHeader(tag: Bytes, size: nat, third: int): (r: Bytes)
    requires |tag| == 4 && size >= 12
    ensures |r| == size
  {
    Patch(Patch(Patch(Zeros(size), 0, tag), 4, U32(size)), 8, U32(third))
  }

  function TypedHeader(tag: Bytes, size: nat, total: int, kind: int): (r: Bytes)
    requires |tag| == 4 && size >= 14
    ensures |r| == size
  {
    Patch(TagHeader(tag, size, total), 12, U16(kind))
  }

  function MhodString(value: string): Bytes {
    TypedHeader(MHOD, MHOD_HEADER_SIZE, MHOD_HEADER_SIZE + |StringBody(value)|, FILE_NAME) + StringBody(value)
  }

  function MhniName(formatId: nat, filename: string): Bytes {
    MhodString(":" + IthmbPaths.Normalize(formatId, filename))
  }

  function MhniHeader(formatId: nat, location: IthmbLocation, p: FormatPayload, total: int): (r: Bytes)
    ensures |r| == MHNI_HEADER_SIZE
  {
    Patch(Patch(Patch(Patch(Patch(Patch(Patch(Patch(Patch(
      TagHeader(MHNI, MHNI_HEADER_SIZE, total),
      12, U32(1)),
      16, U32(formatId)),
      20, U32(location.offset)),
      24, U32(p.size)),
      28, U16(Max(0, p.vpad))),
      30, U16(Max(0, p.hpad))),
      32, U16(p.height)),
      34, U16(p.width)),
      40, U32(p.size))
  }

  function Mhni(formatId: nat, location: IthmbLocation, p: FormatPayload): Bytes {
    var name := MhniName(formatId, location.filename);
    MhniHeader(formatId, location, p, MHNI_HEADER_SIZE + |name|) + name
  }

  predicate MhniFits(formatId: nat, location: IthmbLocation, p: FormatPayload) {
    && FitsU32(|Utf16.Encode(":" + IthmbPaths.Normalize(formatId, location.filename))|)
    && FitsU32(|MhniName(formatId, location.filename)|)
    && FitsU32(|Mhni(formatId, location, p)|)
    && FitsU32(formatId) && FitsU32(location.offset) && FitsU32(p.size)
    && p.vpad <= 0x7FFF && p.hpad <= 0x7FFF
    && FitsU16(p.height) && FitsU16(p.width)
  }

  function MhodContainer(child: Bytes): Bytes {
    TypedHeader(MHOD, MHOD_HEADER_SIZE, MHOD_HEADER_SIZE + |child|, THUMBNAIL_IMAGE) + child
  }

  /** `_coerce_ithmb_location` of the entry's location, offset 0 in the first shard if it has none. */
  function LocationOf(formatId: nat, locations: Locations): IthmbLocation {
    if formatId in locations
    then IthmbLocation(IthmbPaths.Normalize(formatId, locations[formatId].filename), locations[formatId].offset)
    else IthmbLocation(IthmbPaths.IthmbFilename(formatId, 1), 0)
  }

  function MhiiChild(formatId: nat, entry: ArtworkEntry, locations: Locations): Bytes
    requires formatId in entry.formats
  {
    MhodContainer(Mhni(formatId, LocationOf(formatId, locations), entry.formats[formatId]))
  }

  predicate MhiiChildFits(formatId: nat, entry: ArtworkEntry, locations: Locations)
    requires formatId in entry.formats
  {
    && MhniFits(formatId, LocationOf(formatId, locations), entry.formats[formatId])
    && FitsU32(|MhiiChild(formatId, entry, locations)|)
  }

  function MhiiChildren(formatIds: seq<nat>, entry: ArtworkEntry, locations: Locations): Bytes
    requires forall f | f in formatIds :: f in entry.formats
  {
    if formatIds == [] then []
    else MhiiChildren(formatIds[..|formatIds| - 1], entry, locations)
         + MhiiChild(formatIds[|formatIds| - 1], entry, locations)
  }

  function MhiiHeader(entry: ArtworkEntry, children: nat, total: int): (r: Bytes)
    ensures |r| == MHII_HEADER_SIZE
  {
    Patch(Patch(Patch(Patch(
      TagHeader(MHII, MHII_HEADER_SIZE, total),
      12, U32(children)),
      16, U32(entry.imgId)),
      20, U64(entry.dbTrackId)),
      48, U32(entry.srcImgSize))
  }

  ghost function Mhii(entry: ArtworkEntry, locations: Locations): Bytes {
    SortedOfSpec(entry.formats.Keys);
    var ids := SortedOf(entry.formats.Keys);
    var children := MhiiChildren(ids, entry, locations);
    MhiiHeader(entry, |ids|, MHII_HEADER_SIZE + |children|) + children
  }

  ghost predicate MhiiFits(entry: ArtworkEntry, locations: Locations) {
    && (forall f | f in entry.formats :: MhiiChildFits(f, entry, locations))
    && FitsU32(|Mhii(entry, locations)|) && FitsU32(|SortedOf(entry.formats.Keys)|)
    && FitsU32(entry.imgId) && FitsU64(entry.dbTrackId) && FitsU32(entry.srcImgSize)
  }

  ghost function MhliChildren(entries: seq<ArtworkEntry>, map_: map<int, Locations>): Bytes
    requires forall e | e in entries :: e.imgId in map_
  {
    if entries == [] then []
    else
      var last := entries[|entries| - 1];
      MhliChildren(entries[..|entries| - 1], map_) + Mhii(last, map_[last.imgId])
  }

  ghost function Mhli(entries: seq<ArtworkEntry>, map_: map<int, Locations>): Bytes
    requires forall e | e in entries :: e.imgId in map_
  {
    TagHeader(MHLI, MHLI_HEADER_SIZE, |entries|) + MhliChildren(entries, map_)
  }

  ghost predicate MhliFits(entries: seq<ArtworkEntry>, map_: map<int, Locations>) {
    && (forall e | e in entries :: e.imgId in map_ && MhiiFits(e, map_[e.imgId]))
    && FitsU32(|entries|)
  }

  function Mhla(): Bytes {
    TagHeader(MHLA, MHLA_HEADER_SIZE, 0)
  }

  function Mhif(formatId: nat, imageSize: int): (r: Bytes)
    ensures |r| == MHIF_HEADER_SIZE
  {
    Patch(Patch(TagHeader(MHIF, MHIF_HEADER_SIZE, MHIF_HEADER_SIZE), 16, U32(formatId)), 20, U32(imageSize))
  }

  function MhlfChildren(formatIds: seq<nat>, imageSizes: map<nat, int>): Bytes
    requires forall f | f in formatIds :: f in imageSizes
  {
    if formatIds == [] then []
    else
      var last := formatIds[|formatIds| - 1];
      MhlfChildren(formatIds[..|formatIds| - 1], imageSizes) + Mhif(last, imageSizes[last])
  }

  function Mhlf(formatIds: seq<nat>, imageSizes: map<nat, int>): Bytes
    requires forall f | f in formatIds :: f in imageSizes
  {
    TagHeader(MHLF, MHLF_HEADER_SIZE, |formatIds|) + MhlfChildren(formatIds, imageSizes)
  }

  predicate MhlfFits(formatIds: seq<nat>, imageSizes: map<nat, int>) {
    && (forall f | f in formatIds :: f in imageSizes && FitsU32(f) && FitsU32(imageSizes[f]))
    && FitsU32(|formatIds|)
  }

  function Mhsd(dsType: int, child: Bytes): Bytes {
    TypedHeader(MHSD, MHSD_HEADER_SIZE, MHSD_HEADER_SIZE + |child|, dsType) + child
  }

  function CopyField(header: Bytes, reference: Bytes, lo: nat, hi: nat): (r: Bytes)
    requires lo <= hi <= |header|
    ensures |r| == |header|
  {
    if |reference| >= hi then Patch(header, lo, reference[lo..hi]) else header
  }

  /** `_write_mhfd`; an absent reference is an empty one. */
  function MhfdHeader(datasets: nat, nextId: int, reference: Bytes, total: int): (r: Bytes)
    ensures |r| == MHFD_HEADER_SIZE
  {
    CopyField(Patch(CopyField(Patch(Patch(Patch(
      TagHeader(MHFD, MHFD_HEADER_SIZE, total),
      16, U32(2)),
      20, U32(datasets)),
      28, U32(nextId)),
      reference, 32, 48),
      48, U32(2)),
      reference, 60, 68)
  }

  /** Everything `build_artworkdb` is given. */
  datatype Source = Source(
    entries: seq<ArtworkEntry>,
    locations: map<int, Locations>,
    formatIds: seq<nat>,
    imageSizes: map<nat, int>,
    nextId: int,
    reference: Bytes
  ) {
    ghost predicate HasKeys() {
      && (forall e | e in entries :: e.imgId in locations)
      && (forall f | f in formatIds :: f in imageSizes)
    }

    ghost function Datasets(): Bytes
      requires HasKeys()
    {
      Mhsd(IMAGE_LIST, Mhli(entries, locations)) + Mhsd(PHOTO_ALBUM_LIST, Mhla())
      + Mhsd(FILE_LIST, Mhlf(formatIds, imageSizes))
    }

    ghost function Database(): Bytes
      requires HasKeys()
    {
      MhfdHeader(3, nextId, reference, MHFD_HEADER_SIZE + |Datasets()|) + Datasets()
    }

    /** Every value fits the field it is written to. */
    ghost predicate Fits() {
      && HasKeys()
      && MhliFits(entries, locations) && MhlfFits(formatIds, imageSizes)
      && FitsU32(|Mhsd(IMAGE_LIST, Mhli(entries, locations))|)
      && FitsU32(|Mhsd(FILE_LIST, Mhlf(formatIds, imageSizes))|)
      && FitsU32(|Database()|) && FitsU32(nextId)
    }
  }
}
