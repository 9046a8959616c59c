/** `extract_format_ids`: the format ids listed in an ArtworkDB's file dataset. */
module Mhlf {
  import opened Bytes
  import opened ArtworkDbFormat
  import opened ArtworkDbReader
  import opened ArtworkDbRoundTrip

  /** The inner loop: the ids of up to `count` mhif chunks, stopping at the first bad one. */
  function FileIds(data: Bytes, offset: nat, end: nat, count: nat): seq<nat>
    requires end <= |data|
    decreases count
  {
    if count == 0 || offset + 20 > end || !HasTag(data, offset, MHIF) then []
    else
      var size := ReadU32(data, offset + 4);
      if size < 20 || offset + size > end then []
      else [ReadU32(data, offset + 16)] + FileIds(data, offset + size, end, count - 1)
  }

  /** What one dataset contributes. */
  function DatasetIds(data: Bytes, offset: nat): seq<nat>
    requires offset + 14 <= |data| && offset + ReadU32(data, offset + 8) <= |data|
  {
    var end, mhlf := offset + ReadU32(data, offset + 8), offset + ReadU32(data, offset + 4);
    if ReadU16(data, offset + 12) != FILE_LIST || mhlf + 12 > end || !HasTag(data, mhlf, MHLF) then []
    else FileIds(data, mhlf + ReadU32(data, mhlf + 4), end, ReadU32(data, mhlf + 8))
  }

  /** The outer loop over at most `count` datasets, stopping at the first bad one. */
  function AllIds(data: Bytes, offset: nat, count: nat): seq<nat>
    decreases count
  {
    if count == 0 || offset + 14 > |data| || !HasTag(data, offset, MHSD) then []
    else
      var header, total := ReadU32(data, offset + 4), ReadU32(data, offset + 8);
      if !TotalIsValid(data, offset, header, total, 14, |data|) then []
      else DatasetIds(data, offset) + AllIds(data, offset + total, count - 1)
  }

  function FormatIds(data: Bytes): seq<nat> {
    if |data| < 32 || !HasTag(data, 0, MHFD) then []
    else AllIds(data, ReadU32(data, 4), ReadU32(data, 20))
  }

  method ExtractFileIds(data: Bytes, start: nat, end: nat, count: nat) returns (result: seq<nat>)
    requires end <= |data|
    ensures result == FileIds(data, start, end, count)
  {
    hide ReadU32;
    result := [];
    var offset: nat := start;
    var i := 0;
    while i < count
      invariant i <= count
      invariant FileIds(data, start, end, count) == result + FileIds(data, offset, end, count - i)
    {
      if offset + 20 > end || !HasTag(data, offset, MHIF) {
        break;
      }
      var size := ReadU32(data, offset + 4);
      if size < 20 || offset + size > end {
        break;
      }
      ghost var id, rest := ReadU32(data, offset + 16), FileIds(data, offset + size, end, count - i - 1);
      assert result + ([id] + rest) == result + [id] + rest;
      result := result + [ReadU32(data, offset + 16)];
      offset := offset + size;
      i := i + 1;
    }
    assert FileIds(data, offset, end, count - i) == [];
  }

  lemma DatasetStep(data: Bytes, offset: nat, count: nat)
    requires count > 0 && offset + 14 <= |data| && HasTag(data, offset, MHSD)
    requires TotalIsValid(data, offset, ReadU32(data, offset + 4), ReadU32(data, offset + 8), 14, |data|)
    ensures AllIds(data, offset, count) == DatasetIds(data, offset) + AllIds(data, offset + ReadU32(data, offset + 8), count - 1)
  {
    hide DatasetIds;
    hide ReadU32;
  }

  lemma NoDataset(data: Bytes, offset: nat, count: nat)
    requires count == 0 || offset + 14 > |data| || !HasTag(data, offset, MHSD)
             || !TotalIsValid(data, offset, ReadU32(data, offset + 4), ReadU32(data, offset + 8), 14, |data|)
    ensures AllIds(data, offset, count) == []
  {
    hide ReadU32;
  }

  method ExtractFormatIds(data: Bytes) returns (result: seq<nat>)
    ensures result == FormatIds(data)
  {
    hide ReadU32;
    hide ReadU16;
    hide FileIds;
    hide AllIds;
    if |data| < 32 || !HasTag(data, 0, MHFD) {
      return [];
    }
    result := [];
    var childCount := ReadU32(data, 20);
    var offset: nat := ReadU32(data, 4);
    var i := 0;
    while i < childCount
      invariant i <= childCount
      invariant FormatIds(data) == result + AllIds(data, offset, childCount - i)
    {
      if offset + 14 > |data| || !HasTag(data, offset, MHSD) {
        break;
      }
      var header, total := ReadU32(data, offset + 4), ReadU32(data, offset + 8);
      if !TotalIsValid(data, offset, header, total, 14, |data|) {
        break;
      }
      ghost var rest := AllIds(data, offset + total, childCount - i - 1);
      DatasetStep(data, offset, childCount - i);
      var found := [];
      if ReadU16(data, offset + 12) == FILE_LIST {
        var end, mhlf := offset + total, offset + header;
        if mhlf + 12 <= end && HasTag(data, mhlf, MHLF) {
          found := ExtractFileIds(data, mhlf + ReadU32(data, mhlf + 4), end, ReadU32(data, mhlf + 8));
        }
      }
      assert result + (found + rest) == result + found + rest;
      result := result + found;
      offset := offset + total;
      i := i + 1;
    }
    NoDataset(data, offset, childCount - i);
  }

  lemma MhifFields(formatId: nat, imageSize: int)
    requires FitsU32(formatId) && FitsU32(imageSize)
    ensures var h := Mhif(formatId, imageSize);
            h[0..4] == MHIF && ReadU32(h, 4) == MHIF_HEADER_SIZE && ReadU32(h, 16) == formatId
  {
    hide Patch;
    hide TagHeader;
    var h0 := TagHeader(MHIF, MHIF_HEADER_SIZE, MHIF_HEADER_SIZE);
    TagHeaderFields(MHIF, MHIF_HEADER_SIZE, MHIF_HEADER_SIZE);
    var h1 := Keep(h0, 16, U32(formatId));
    var h2 := Keep(h1, 20, U32(imageSize));
    PatchRead(h0, 16, formatId);
  }

  lemma {:induction false} MhlfFirst(ids: seq<nat>, sizes: map<nat, int>)
    requires ids != [] && forall f | f in ids :: f in sizes
    ensures MhlfChildren(ids, sizes) == Mhif(ids[0], sizes[ids[0]]) + MhlfChildren(ids[1..], sizes)
  {
    hide Mhif;
    var n := |ids| - 1;
    if n == 0 {
      assert ids[..0] == [] && ids[1..] == [];
    } else {
      var front := ids[..n];
      assert front[1..] == ids[1..][..n - 1] && front[0] == ids[0] && ids[1..][n - 1] == ids[n];
      MhlfFirst(front, sizes);
      MhlfLast(ids, sizes);
      MhlfLast(ids[1..], sizes);
      hide MhlfChildren;
      ConcatThree(Mhif(ids[0], sizes[ids[0]]), MhlfChildren(front[1..], sizes), Mhif(ids[n], sizes[ids[n]]));
    }
  }

  lemma MhlfLast(ids: seq<nat>, sizes: map<nat, int>)
    requires ids != [] && forall f | f in ids :: f in sizes
    ensures var n := |ids| - 1;
            MhlfChildren(ids, sizes) == MhlfChildren(ids[..n], sizes) + Mhif(ids[n], sizes[ids[n]])
  {
    hide Mhif;
  }

  lemma ConcatThree(a: Bytes, b: Bytes, c: Bytes)
    ensures a + b + c == a + (b + c)
  {
  }

  lemma {:induction false} FileIdsRead(data: Bytes, offset: nat, end: nat, ids: seq<nat>, sizes: map<nat, int>)
    requires forall f | f in ids :: f in sizes && FitsU32(f) && FitsU32(sizes[f])
    requires At(data, offset, MhlfChildren(ids, sizes)) && offset + |MhlfChildren(ids, sizes)| <= end <= |data|
    ensures FileIds(data, offset, end, |ids|) == ids
    decreases |ids|
  {
    hide Mhif;
    hide ReadU32;
    if ids != [] {
      var f := ids[0];
      assert f in ids;
      MhlfFirst(ids, sizes);
      var first, rest := Mhif(f, sizes[f]), MhlfChildren(ids[1..], sizes);
      MhifFields(f, sizes[f]);
      HeadAt(data, offset, first, rest);
      AtSplit(data, offset, first, rest);
      AtRead(data, offset, first, 16);
      FileIdsRead(data, offset + MHIF_HEADER_SIZE, end, ids[1..], sizes);
    }
  }

  lemma FileDatasetRead(data: Bytes, offset: nat, ids: seq<nat>, sizes: map<nat, int>)
    requires MhlfFits(ids, sizes)
    requires var ds := Mhsd(FILE_LIST, Mhlf(ids, sizes)); FitsU32(|ds|) && At(data, offset, ds)
    ensures var ds := Mhsd(FILE_LIST, Mhlf(ids, sizes));
      && HasTag(data, offset, MHSD) && ReadU32(data, offset + 4) == MHSD_HEADER_SIZE
      && ReadU32(data, offset + 8) == |ds| && DatasetIds(data, offset) == ids
  {
    hide TypedHeader;
    hide TagHeader;
    hide ReadU32;
    hide ReadU16;
    hide FileIds;
    hide MhlfChildren;
    var child, files := Mhlf(ids, sizes), MhlfChildren(ids, sizes);
    var total := MHSD_HEADER_SIZE + |child|;
    TypedHeaderFields(MHSD, MHSD_HEADER_SIZE, total, FILE_LIST);
    HeadAt(data, offset, TypedHeader(MHSD, MHSD_HEADER_SIZE, total, FILE_LIST), child);
    var mhlf := offset + MHSD_HEADER_SIZE;
    TagHeaderFields(MHLF, MHLF_HEADER_SIZE, |ids|);
    HeadAt(data, mhlf, TagHeader(MHLF, MHLF_HEADER_SIZE, |ids|), files);
    FileIdsRead(data, mhlf + MHLF_HEADER_SIZE, offset + total, ids, sizes);
  }

  lemma OtherDatasetIds(data: Bytes, offset: nat, dsType: int, child: Bytes)
    requires FitsU16(dsType) && dsType != FILE_LIST
    requires FitsU32(|Mhsd(dsType, child)|) && At(data, offset, Mhsd(dsType, child))
    ensures HasTag(data, offset, MHSD) && ReadU32(data, offset + 4) == MHSD_HEADER_SIZE
    ensures ReadU32(data, offset + 8) == |Mhsd(dsType, child)| && DatasetIds(data, offset) == []
  {
    hide TypedHeader;
    hide ReadU32;
    hide ReadU16;
    var total := MHSD_HEADER_SIZE + |child|;
    TypedHeaderFields(MHSD, MHSD_HEADER_SIZE, total, dsType);
    HeadAt(data, offset, TypedHeader(MHSD, MHSD_HEADER_SIZE, total, dsType), child);
  }

  /** The ids extracted from a written database are the ids it was written with, in order. */
  lemma FormatIdsRead(source: Source)
    requires source.Fits()
    ensures FormatIds(source.Database()) == source.formatIds
  {
    hide MhfdHeader;
    hide ReadU32;
    hide Mhli;
    hide Mhlf;
    hide Mhla;
    hide MhliFits;
    hide MhlfFits;
    hide DatasetIds;
    hide Patch;
    hide TagHeader;
    var data, body := source.Database(), source.Datasets();
    var header := MhfdHeader(3, source.nextId, source.reference, MHFD_HEADER_SIZE + |body|);
    MhfdFields(3, source.nextId, source.reference, MHFD_HEADER_SIZE + |body|);
    assert At(data, 0, header + body) by { assert data[0..|data|] == data; }
    HeadAt(data, 0, header, body);
    AtSplit(data, 0, header, body);
    AtRead(data, 0, header, 20);
    var d1 := Mhsd(IMAGE_LIST, Mhli(source.entries, source.locations));
    var d2 := Mhsd(PHOTO_ALBUM_LIST, Mhla());
    var d3 := Mhsd(FILE_LIST, Mhlf(source.formatIds, source.imageSizes));
    var o := MHFD_HEADER_SIZE;
    AtSplit(data, o, d1 + d2, d3);
    AtSplit(data, o, d1, d2);
    MhlaLength();
    OtherDatasetIds(data, o, IMAGE_LIST, Mhli(source.entries, source.locations));
    OtherDatasetIds(data, o + |d1|, PHOTO_ALBUM_LIST, Mhla());
    FileDatasetRead(data, o + |d1| + |d2|, source.formatIds, source.imageSizes);
    assert AllIds(data, |data|, 0) == [];
    assert AllIds(data, o + |d1| + |d2|, 1) == source.formatIds;
    assert AllIds(data, o + |d1|, 2) == source.formatIds;
    assert AllIds(data, o, 3) == source.formatIds;
  }

  /** An mhif that lies inside its list. */
  predicate WholeFile(data: Bytes, offset: nat, end: nat)
    requires end <= |data|
  {
    offset + 20 <= end && HasTag(data, offset, MHIF) && 20 <= ReadU32(data, offset + 4) <= end - offset
  }

  /** The id read at `start`, with the next mhif at `next`. */
  predicate IdAt(data: Bytes, start: nat, next: nat, id: nat, end: nat)
    requires end <= |data|
  {
    WholeFile(data, start, end) && next == start + ReadU32(data, start + 4) && id == ReadU32(data, start + 16)
  }

  /** On any bytes: the ids are those of the whole mhif chunks that follow one another from `offset`, as
      many as the list says, or up to the first that is not whole. */
  lemma {:induction false} IdsOfWholeFiles(data: Bytes, offset: nat, end: nat, count: nat) returns (starts: seq<nat>)
    requires end <= |data|
    ensures var ids := FileIds(data, offset, end, count);
      && |starts| == |ids| + 1 && starts[0] == offset && |ids| <= count
      && (forall i, j | 0 <= i < |ids| && j == i + 1 :: IdAt(data, starts[i], starts[j], ids[i], end))
      && (|ids| < count ==> !WholeFile(data, starts[|ids|], end))
    decreases count
  {
    hide ReadU32;
    starts := [offset];
    if count > 0 && WholeFile(data, offset, end) {
      var next := offset + ReadU32(data, offset + 4);
      var rest := IdsOfWholeFiles(data, next, end, count - 1);
      starts := [offset] + rest;
      var ids, more := FileIds(data, offset, end, count), FileIds(data, next, end, count - 1);
      assert ids == [ReadU32(data, offset + 16)] + more;
      forall i, j | 0 <= i < |ids| && j == i + 1
        ensures IdAt(data, starts[i], starts[j], ids[i], end)
      {
        assert starts[j] == rest[i];
        if i > 0 { assert starts[i] == rest[i - 1] && ids[i] == more[i - 1]; }
      }
    }
  }
}
