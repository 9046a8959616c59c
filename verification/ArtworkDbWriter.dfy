/** `build_artworkdb` and the `_write_*` helpers, filling one header at a time. */
module ArtworkDbWriter {
  import opened Outcomes
  import opened Bytes
  import opened ArtworkTypes
  import opened ArtworkDbFormat
  import Utf16
  import IthmbPaths

  /** A zeroed header with its tag, its own size and its third word filled in. */
  method NewHeader(tag: Bytes, size: nat, third: int) returns (header: array<byte>, r: Result<(), PackError>)
    requires |tag| == 4 && 12 <= size < 1000
    ensures fresh(header) && header.Length == size
    ensures r.Success? <==> FitsU32(third)
    ensures r.Success? ==> header[..] == TagHeader(tag, size, third)
  {
    hide Patch;
    header := new byte[size](_ => 0);
    assert header[..] == Zeros(size);
    Put(header, 0, tag);
    r := PackU32(header, 4, size);
    if r.Success? {
      r := PackU32(header, 8, third);
    }
  }

  method WriteMhodString(value: string) returns (r: Result<Bytes, PackError>)
    ensures r.Success? <==> FitsU32(|Utf16.Encode(value)|) && FitsU32(|MhodString(value)|)
    ensures r.Success? ==> r.value == MhodString(value)
  {
    hide Patch;
    hide TagHeader;
    if !FitsU32(|Utf16.Encode(value)|) {
      return Failure(OutOfRange);
    }
    var body := StringBody(value);
    var header, ok := NewHeader(MHOD, MHOD_HEADER_SIZE, MHOD_HEADER_SIZE + |body|);
    if ok.Failure? { return Failure(OutOfRange); }
    Put(header, 12, U16(FILE_NAME));
    return Success(header[..] + body);
  }

  method WriteMhni(formatId: nat, location: IthmbLocation, p: FormatPayload) returns (r: Result<Bytes, PackError>)
    ensures r.Success? <==> MhniFits(formatId, location, p)
    ensures r.Success? ==> r.value == Mhni(formatId, location, p)
  {
    hide Patch;
    hide TagHeader;
    hide MhodString;
    hide IthmbPaths.Normalize;
    var filename := IthmbPaths.Normalize(formatId, location.filename);
    var mhod3 :- WriteMhodString(":" + filename);
    var header, ok := NewHeader(MHNI, MHNI_HEADER_SIZE, MHNI_HEADER_SIZE + |mhod3|);
    if ok.Failure? { return Failure(OutOfRange); }
    var verticalPadding, horizontalPadding := Max(0, p.vpad), Max(0, p.hpad);
    Put(header, 12, U32(1));
    var _ :- PackU32(header, 16, formatId);
    var _ :- PackU32(header, 20, location.offset);
    var _ :- PackU32(header, 24, p.size);
    if verticalPadding > 0x7FFF || horizontalPadding > 0x7FFF {
      return Failure(OutOfRange);
    }
    Put(header, 28, U16(verticalPadding));
    Put(header, 30, U16(horizontalPadding));
    var _ :- PackU16(header, 32, p.height);
    var _ :- PackU16(header, 34, p.width);
    Put(header, 40, U32(p.size));
    return Success(header[..] + mhod3);
  }

  method WriteMhodContainer(child: Bytes) returns (r: Result<Bytes, PackError>)
    ensures r.Success? <==> FitsU32(|MhodContainer(child)|)
    ensures r.Success? ==> r.value == MhodContainer(child)
  {
    hide Patch;
    hide TagHeader;
    var header, ok := NewHeader(MHOD, MHOD_HEADER_SIZE, MHOD_HEADER_SIZE + |child|);
    if ok.Failure? { return Failure(OutOfRange); }
    Put(header, 12, U16(THUMBNAIL_IMAGE));
    return Success(header[..] + child);
  }

  method WriteMhiiChild(formatId: nat, entry: ArtworkEntry, locations: Locations) returns (r: Result<Bytes, PackError>)
    requires formatId in entry.formats
    ensures r.Success? <==> MhiiChildFits(formatId, entry, locations)
    ensures r.Success? ==> r.value == MhiiChild(formatId, entry, locations)
  {
    hide MhniFits;
    hide Mhni;
    hide MhodContainer;
    hide LocationOf;
    var mhni :- WriteMhni(formatId, LocationOf(formatId, locations), entry.formats[formatId]);
    r := WriteMhodContainer(mhni);
  }

  method WriteMhiiChildren(ids: seq<nat>, entry: ArtworkEntry, locations: Locations) returns (r: Result<Bytes, PackError>)
    requires forall f | f in ids :: f in entry.formats
    ensures r.Success? <==> forall f | f in ids :: MhiiChildFits(f, entry, locations)
    ensures r.Success? ==> r.value == MhiiChildren(ids, entry, locations)
  {
    hide MhiiChildFits;
    hide MhiiChild;
    var children: Bytes := [];
    for i := 0 to |ids|
      invariant children == MhiiChildren(ids[..i], entry, locations)
      invariant forall k | 0 <= k < i :: MhiiChildFits(ids[k], entry, locations)
    {
      assert ids[i] in ids;
      var child :- WriteMhiiChild(ids[i], entry, locations);
      children := children + child;
      assert ids[..i + 1][..i] == ids[..i];
    }
    assert ids[..|ids|] == ids;
    return Success(children);
  }

  method WriteMhii(entry: ArtworkEntry, locations: Locations) returns (r: Result<Bytes, PackError>)
    ensures r.Success? <==> MhiiFits(entry, locations)
    ensures r.Success? ==> r.value == Mhii(entry, locations)
  {
    hide Patch;
    hide TagHeader;
    hide MhiiChildFits;
    hide SortedOf;
    hide MhiiChildren;
    SortedOfSpec(entry.formats.Keys);
    var ids := SortedKeys(entry.formats.Keys);
    var children :- WriteMhiiChildren(ids, entry, locations);
    var header, ok := NewHeader(MHII, MHII_HEADER_SIZE, MHII_HEADER_SIZE + |children|);
    if ok.Failure? { return Failure(OutOfRange); }
    var _ :- PackU32(header, 12, |ids|);
    var _ :- PackU32(header, 16, entry.imgId);
    var _ :- PackU64(header, 20, entry.dbTrackId);
    var _ :- PackU32(header, 48, entry.srcImgSize);
    return Success(header[..] + children);
  }

  method WriteMhli(entries: seq<ArtworkEntry>, locations: map<int, Locations>) returns (r: Result<Bytes, PackError>)
    ensures r.Success? <==> MhliFits(entries, locations)
    ensures r.Success? ==> r.value == Mhli(entries, locations)
  {
    hide Patch;
    hide TagHeader;
    hide Mhii;
    hide MhiiFits;
    var children: Bytes := [];
    for i := 0 to |entries|
      invariant forall k | 0 <= k < i ::
        entries[k].imgId in locations && MhiiFits(entries[k], locations[entries[k].imgId])
      invariant children == MhliChildren(entries[..i], locations)
    {
      var entry := entries[i];
      assert entry in entries;
      if entry.imgId !in locations {
        return Failure(MissingKey);
      }
      var child :- WriteMhii(entry, locations[entry.imgId]);
      children := children + child;
      assert entries[..i + 1][..i] == entries[..i];
    }
    assert entries[..|entries|] == entries;
    var header, ok := NewHeader(MHLI, MHLI_HEADER_SIZE, |entries|);
    if ok.Failure? { return Failure(OutOfRange); }
    return Success(header[..] + children);
  }

  method WriteMhlf(formatIds: seq<nat>, imageSizes: map<nat, int>) returns (r: Result<Bytes, PackError>)
    ensures r.Success? <==> MhlfFits(formatIds, imageSizes)
    ensures r.Success? ==> r.value == Mhlf(formatIds, imageSizes)
  {
    hide Patch;
    hide TagHeader;
    var children: Bytes := [];
    for i := 0 to |formatIds|
      invariant forall k | 0 <= k < i ::
        formatIds[k] in imageSizes && FitsU32(formatIds[k]) && FitsU32(imageSizes[formatIds[k]])
      invariant children == MhlfChildren(formatIds[..i], imageSizes)
    {
      var f := formatIds[i];
      assert f in formatIds;
      if f !in imageSizes {
        return Failure(MissingKey);
      }
      var header, _ := NewHeader(MHIF, MHIF_HEADER_SIZE, MHIF_HEADER_SIZE);
      var _ :- PackU32(header, 16, f);
      var _ :- PackU32(header, 20, imageSizes[f]);
      children := children + header[..];
      assert formatIds[..i + 1][..i] == formatIds[..i];
    }
    assert formatIds[..|formatIds|] == formatIds;
    var header, ok := NewHeader(MHLF, MHLF_HEADER_SIZE, |formatIds|);
    if ok.Failure? { return Failure(OutOfRange); }
    return Success(header[..] + children);
  }

  method WriteMhsd(dsType: int, child: Bytes) returns (r: Result<Bytes, PackError>)
    requires FitsU16(dsType)
    ensures r.Success? <==> FitsU32(|Mhsd(dsType, child)|)
    ensures r.Success? ==> r.value == Mhsd(dsType, child)
  {
    hide Patch;
    hide TagHeader;
    var header, ok := NewHeader(MHSD, MHSD_HEADER_SIZE, MHSD_HEADER_SIZE + |child|);
    if ok.Failure? { return Failure(OutOfRange); }
    Put(header, 12, U16(dsType));
    return Success(header[..] + child);
  }

  /** `b"".join(parts)` */
  function Joined(parts: seq<Bytes>): Bytes {
    if parts == [] then [] else Joined(parts[..|parts| - 1]) + parts[|parts| - 1]
  }

  lemma JoinThree(a: Bytes, b: Bytes, c: Bytes)
    ensures Joined([a, b, c]) == a + b + c
  {
    assert [a, b, c][..2] == [a, b] && [a, b][..1] == [a] && [a][..0] == [];
    assert Joined([a, b, c][..2]) == a + b && Joined([a, b][..1]) == a && Joined([a][..0]) == [];
  }

  method WriteMhfd(datasets: seq<Bytes>, nextId: int, reference: Bytes) returns (r: Result<Bytes, PackError>)
    ensures r.Success? <==> FitsU32(MHFD_HEADER_SIZE + |Joined(datasets)|) && FitsU32(|datasets|) && FitsU32(nextId)
    ensures r.Success? ==>
              r.value == MhfdHeader(|datasets|, nextId, reference, MHFD_HEADER_SIZE + |Joined(datasets)|) + Joined(datasets)
  {
    hide Patch;
    hide TagHeader;
    hide Joined;
    var body := Joined(datasets);
    var header, ok := NewHeader(MHFD, MHFD_HEADER_SIZE, MHFD_HEADER_SIZE + |body|);
    if ok.Failure? { return Failure(OutOfRange); }
    Put(header, 16, U32(2));
    var _ :- PackU32(header, 20, |datasets|);
    var _ :- PackU32(header, 28, nextId);
    if |reference| >= 48 {
      Put(header, 32, reference[32..48]);
    }
    Put(header, 48, U32(2));
    if |reference| >= 68 {
      Put(header, 60, reference[60..68]);
    }
    return Success(header[..] + body);
  }

  method BuildArtworkDb(source: Source) returns (r: Result<Bytes, PackError>)
    ensures r.Success? <==> source.Fits()
    ensures r.Success? ==> r.value == source.Database()
  {
    hide Patch;
    hide MhfdHeader;
    hide Mhli;
    hide Mhlf;
    hide MhiiFits;
    hide Mhsd;
    var mhli :- WriteMhli(source.entries, source.locations);
    var ds1 :- WriteMhsd(IMAGE_LIST, mhli);
    var mhla, _ := NewHeader(MHLA, MHLA_HEADER_SIZE, 0);
    var ds2 :- WriteMhsd(PHOTO_ALBUM_LIST, mhla[..]);
    var mhlf :- WriteMhlf(source.formatIds, source.imageSizes);
    var ds3 :- WriteMhsd(FILE_LIST, mhlf);
    assert source.HasKeys();
    JoinThree(ds1, ds2, ds3);
    r := WriteMhfd([ds1, ds2, ds3], source.nextId, source.reference);
  }
}
