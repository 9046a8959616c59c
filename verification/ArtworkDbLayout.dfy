/** Where every field of a written ArtworkDB lies, byte by byte. */
module ArtworkDbLayout {
  import opened Bytes
  import opened ArtworkTypes
  import opened ArtworkDbFormat
  import opened ArtworkDbRoundTrip
  import Utf16
  import IthmbPaths

  /** A field of a header. */
  datatype Field = Field(offset: nat, bytes: Bytes) {
    function End(): nat {
      offset + |bytes|
    }
  }

  /** Every field lies where it should, none behind `limit`, and every other byte is zero. */
  ghost predicate LaidOut(header: Bytes, fields: seq<Field>, limit: nat) {
    && (forall k | 0 <= k < |fields| :: fields[k].End() <= limit && At(header, fields[k].offset, fields[k].bytes))
    && (forall i | 0 <= i < |header| && !Covered(fields, i) :: header[i] == 0)
  }

  ghost predicate Covered(fields: seq<Field>, i: int) {
    exists k :: 0 <= k < |fields| && fields[k].offset <= i < fields[k].End()
  }

  lemma NothingLaid(size: nat)
    ensures LaidOut(Zeros(size), [], 0)
  {
  }

  lemma PatchAt(header: Bytes, offset: nat, field: Bytes, i: nat)
    requires offset + |field| <= |header| && i < |header|
    ensures Patch(header, offset, field)[i] == if offset <= i < offset + |field| then field[i - offset] else header[i]
  {
  }

  lemma PatchBelow(header: Bytes, offset: nat, field: Bytes, at: nat, chunk: Bytes)
    requires offset + |field| <= |header| && At(header, at, chunk) && at + |chunk| <= offset
    ensures At(Patch(header, offset, field), at, chunk)
  {
    forall i | at <= i < at + |chunk| ensures Patch(header, offset, field)[i] == header[i] { PatchAt(header, offset, field, i); }
    assert Patch(header, offset, field)[at..at + |chunk|] == header[at..at + |chunk|];
  }

  /** One more field, behind the others. */
  lemma Lay(header: Bytes, fields: seq<Field>, limit: nat, offset: nat, bytes: Bytes) returns (r: Bytes)
    requires LaidOut(header, fields, limit) && limit <= offset && offset + |bytes| <= |header|
    ensures r == Patch(header, offset, bytes)
    ensures LaidOut(r, fields + [Field(offset, bytes)], offset + |bytes|)
  {
    hide Patch;
    r := Patch(header, offset, bytes);
    var all := fields + [Field(offset, bytes)];
    forall k | 0 <= k < |all| ensures all[k].End() <= offset + |bytes| && At(r, all[k].offset, all[k].bytes) {
      if k < |fields| {
        PatchBelow(header, offset, bytes, fields[k].offset, fields[k].bytes);
      } else {
        PatchThere(header, offset, bytes);
      }
    }
    forall i | 0 <= i < |r| && !Covered(all, i) ensures r[i] == 0 {
      PatchAt(header, offset, bytes, i);
      assert all[|fields|] == Field(offset, bytes);
      assert forall k | 0 <= k < |fields| :: all[k] == fields[k];
    }
  }

  lemma PatchThere(header: Bytes, offset: nat, field: Bytes)
    requires offset + |field| <= |header|
    ensures At(Patch(header, offset, field), offset, field)
  {
    forall i | 0 <= i < |field| ensures Patch(header, offset, field)[offset + i] == field[i] {
      PatchAt(header, offset, field, offset + i);
    }
    assert Patch(header, offset, field)[offset..offset + |field|] == field;
  }

  lemma TagLaid(tag: Bytes, size: nat, third: int)
    requires |tag| == 4 && size >= 12
    ensures LaidOut(TagHeader(tag, size, third), [Field(0, tag), Field(4, U32(size)), Field(8, U32(third))], 12)
  {
    NothingLaid(size);
    var a := Lay(Zeros(size), [], 0, 0, tag);
    var b := Lay(a, [] + [Field(0, tag)], 4, 4, U32(size));
    var c := Lay(b, [] + [Field(0, tag)] + [Field(4, U32(size))], 8, 8, U32(third));
    assert [] + [Field(0, tag)] + [Field(4, U32(size))] + [Field(8, U32(third))]
           == [Field(0, tag), Field(4, U32(size)), Field(8, U32(third))];
  }

  function TagFields(tag: Bytes, size: nat, third: int): seq<Field> {
    [Field(0, tag), Field(4, U32(size)), Field(8, U32(third))]
  }

  /** `mhsd` and `mhod`: the type is at 12. */
  lemma TypedLaid(tag: Bytes, size: nat, total: int, kind: int)
    requires |tag| == 4 && size >= 14
    ensures LaidOut(TypedHeader(tag, size, total, kind), TagFields(tag, size, total) + [Field(12, U16(kind))], 14)
  {
    hide TagHeader;
    TagLaid(tag, size, total);
    var h := Lay(TagHeader(tag, size, total), TagFields(tag, size, total), 12, 12, U16(kind));
  }

  /** `mhif`: the format id is at 16 and the image size at 20. */
  lemma MhifLaid(formatId: nat, imageSize: int)
    ensures |Mhif(formatId, imageSize)| == 124
    ensures LaidOut(Mhif(formatId, imageSize),
                    TagFields(MHIF, 124, 124) + [Field(16, U32(formatId))] + [Field(20, U32(imageSize))], 24)
  {
    hide TagHeader;
    hide Patch;
    TagLaid(MHIF, 124, 124);
    var f := TagFields(MHIF, 124, 124);
    var a := Lay(TagHeader(MHIF, 124, 124), f, 12, 16, U32(formatId));
    var b := Lay(a, f + [Field(16, U32(formatId))], 20, 20, U32(imageSize));
  }

  /** `mhni`: one child; format id, offset, size, paddings, height, width; and the size again at 40. */
  lemma MhniLaid(formatId: nat, location: IthmbLocation, p: FormatPayload, total: int)
    ensures |MhniHeader(formatId, location, p, total)| == 76
    ensures LaidOut(MhniHeader(formatId, location, p, total),
                    TagFields(MHNI, 76, total) + [Field(12, U32(1))] + [Field(16, U32(formatId))]
                    + [Field(20, U32(location.offset))] + [Field(24, U32(p.size))] + [Field(28, U16(Max(0, p.vpad)))]
                    + [Field(30, U16(Max(0, p.hpad)))] + [Field(32, U16(p.height))] + [Field(34, U16(p.width))]
                    + [Field(40, U32(p.size))], 44)
  {
    hide Max;
    hide TagHeader;
    hide Patch;
    TagLaid(MHNI, 76, total);
    var f0 := TagFields(MHNI, 76, total);
    var a := Lay(TagHeader(MHNI, 76, total), f0, 12, 12, U32(1));
    var f1 := f0 + [Field(12, U32(1))];
    var b := Lay(a, f1, 16, 16, U32(formatId));
    var f2 := f1 + [Field(16, U32(formatId))];
    var c := Lay(b, f2, 20, 20, U32(location.offset));
    var f3 := f2 + [Field(20, U32(location.offset))];
    var d := Lay(c, f3, 24, 24, U32(p.size));
    var f4 := f3 + [Field(24, U32(p.size))];
    var e := Lay(d, f4, 28, 28, U16(Max(0, p.vpad)));
    var f5 := f4 + [Field(28, U16(Max(0, p.vpad)))];
    var g := Lay(e, f5, 30, 30, U16(Max(0, p.hpad)));
    var f6 := f5 + [Field(30, U16(Max(0, p.hpad)))];
    var h := Lay(g, f6, 32, 32, U16(p.height));
    var f7 := f6 + [Field(32, U16(p.height))];
    var i := Lay(h, f7, 34, 34, U16(p.width));
    var f8 := f7 + [Field(34, U16(p.width))];
    var j := Lay(i, f8, 36, 40, U32(p.size));
  }

  /** `mhii`: the number of formats, the image id, the track id in eight bytes, the source size. */
  lemma MhiiLaid(entry: ArtworkEntry, children: nat, total: int)
    ensures |MhiiHeader(entry, children, total)| == 152
    ensures LaidOut(MhiiHeader(entry, children, total),
                    TagFields(MHII, 152, total) + [Field(12, U32(children))] + [Field(16, U32(entry.imgId))]
                    + [Field(20, U64(entry.dbTrackId))] + [Field(48, U32(entry.srcImgSize))], 52)
  {
    hide TagHeader;
    hide Patch;
    TagLaid(MHII, 152, total);
    var f0 := TagFields(MHII, 152, total);
    var a := Lay(TagHeader(MHII, 152, total), f0, 12, 12, U32(children));
    var f1 := f0 + [Field(12, U32(children))];
    var b := Lay(a, f1, 16, 16, U32(entry.imgId));
    var f2 := f1 + [Field(16, U32(entry.imgId))];
    var c := Lay(b, f2, 20, 20, U64(entry.dbTrackId));
    var f3 := f2 + [Field(20, U64(entry.dbTrackId))];
    var d := Lay(c, f3, 28, 48, U32(entry.srcImgSize));
  }

  function Copied(reference: Bytes, lo: nat, hi: nat): seq<Field>
    requires lo <= hi
  {
    if |reference| >= hi then [Field(lo, reference[lo..hi])] else []
  }

  lemma LayCopy(header: Bytes, fields: seq<Field>, limit: nat, reference: Bytes, lo: nat, hi: nat) returns (r: Bytes)
    requires LaidOut(header, fields, limit) && limit <= lo <= hi <= |header|
    ensures r == CopyField(header, reference, lo, hi)
    ensures LaidOut(r, fields + Copied(reference, lo, hi), hi)
  {
    if |reference| >= hi {
      r := Lay(header, fields, limit, lo, reference[lo..hi]);
    } else {
      r := header;
      assert fields + [] == fields;
    }
  }

  /** `mhfd`: 2 at 16, the number of datasets, the next image id at 28, the reference's bytes 32 to 48,
      2 at 48, and the reference's bytes 60 to 68, where it has them. */
  lemma MhfdLaid(datasets: nat, nextId: int, reference: Bytes, total: int)
    ensures |MhfdHeader(datasets, nextId, reference, total)| == 132
    ensures LaidOut(MhfdHeader(datasets, nextId, reference, total),
                    TagFields(MHFD, 132, total) + [Field(16, U32(2))] + [Field(20, U32(datasets))] + [Field(28, U32(nextId))]
                    + Copied(reference, 32, 48) + [Field(48, U32(2))] + Copied(reference, 60, 68), 68)
  {
    hide TagHeader;
    hide Patch;
    hide CopyField;
    hide Copied;
    TagLaid(MHFD, 132, total);
    var f0 := TagFields(MHFD, 132, total);
    var a := Lay(TagHeader(MHFD, 132, total), f0, 12, 16, U32(2));
    var f1 := f0 + [Field(16, U32(2))];
    var b := Lay(a, f1, 20, 20, U32(datasets));
    var f2 := f1 + [Field(20, U32(datasets))];
    var c := Lay(b, f2, 24, 28, U32(nextId));
    var f3 := f2 + [Field(28, U32(nextId))];
    var d := LayCopy(c, f3, 32, reference, 32, 48);
    var f4 := f3 + Copied(reference, 32, 48);
    var e := Lay(d, f4, 48, 48, U32(2));
    var f5 := f4 + [Field(48, U32(2))];
    var g := LayCopy(e, f5, 52, reference, 60, 68);
  }

  /** A string body: its length, its encoding, seven zero bytes, the encoded text, and zeros up to a
      multiple of four. */
  lemma StringLaid(value: string)
    ensures var text, body := Utf16.Encode(value), StringBody(value);
      && At(body, 0, U32(|text|)) && |body| >= 12 && body[4] == 2 && (forall i | 5 <= i < 12 :: body[i] == 0)
      && At(body, 12, text) && 12 + |text| <= |body| < 16 + |text| && |body| % 4 == 0
      && (forall i | 12 + |text| <= i < |body| :: body[i] == 0)
  {
    hide Utf16.Encode;
    var text, body := Utf16.Encode(value), StringBody(value);
    var head := U32(|text|) + [2] + Zeros(3) + Zeros(4);
    var pad := Zeros((4 - |text| % 4) % 4);
    assert body == head + text + pad;
    hide StringBody;
    PadLength(|text|);
    assert |head| == 12 && head[0..4] == U32(|text|) && head[4] == 2 && forall i | 5 <= i < 12 :: head[i] == 0;
    hide U32;
    ThreeParts(head, text, pad);
  }

  lemma PadLength(n: nat)
    ensures var pad := (4 - n % 4) % 4; 0 <= pad < 4 && (12 + n + pad) % 4 == 0
  {
  }

  lemma ThreeParts(head: Bytes, text: Bytes, pad: Bytes)
    requires |head| == 12
    ensures var body := head + text + pad;
      && body[0..4] == head[0..4] && (forall i | 0 <= i < 12 :: body[i] == head[i])
      && body[12..12 + |text|] == text && (forall i | 12 + |text| <= i < |body| :: body[i] == pad[i - 12 - |text|])
  {
  }

  /** Words are little-endian. */
  lemma LittleEndianRead(data: Bytes, offset: nat)
    ensures offset + 4 <= |data| ==>
              ReadU32(data, offset)
              == data[offset] as int + 0x100 * data[offset + 1] as int + 0x1_0000 * data[offset + 2] as int
                 + 0x100_0000 * data[offset + 3] as int
    ensures offset + 2 <= |data| ==> ReadU16(data, offset) == data[offset] as int + 0x100 * data[offset + 1] as int
  {
  }

  /** The whole file: the root, the three datasets, one after the other. */
  lemma RootAt(source: Source)
    requires source.Fits()
    ensures var data, body := source.Database(), source.Datasets();
      && |data| == 132 + |body| && At(data, 0, MhfdHeader(3, source.nextId, source.reference, |data|)) && At(data, 132, body)
  {
    hide MhfdHeader;
    hide Mhli;
    hide Mhlf;
    hide Mhla;
    hide Mhsd;
    var data, body := source.Database(), source.Datasets();
    assert data[0..|data|] == data;
    AtSplit(data, 0, MhfdHeader(3, source.nextId, source.reference, |data|), body);
  }

  /** The root's fields as they read in the file. */
  lemma RootFields(source: Source)
    requires source.Fits()
    ensures var data := source.Database();
      && |data| >= 132 && data[0..4] == MHFD && ReadU32(data, 4) == 132 && ReadU32(data, 8) == |data|
      && ReadU32(data, 16) == 2 && ReadU32(data, 20) == 3 && ReadU32(data, 28) == source.nextId && ReadU32(data, 48) == 2
      && (|source.reference| >= 48 ==> data[32..48] == source.reference[32..48])
      && (|source.reference| >= 68 ==> data[60..68] == source.reference[60..68])
  {
    hide MhfdHeader;
    hide LaidOut;
    hide Mhli;
    hide Mhlf;
    hide Mhla;
    hide Mhsd;
    hide MhliFits;
    hide MhlfFits;
    hide ReadU32;
    var data := source.Database();
    var header := MhfdHeader(3, source.nextId, source.reference, |data|);
    RootAt(source);
    MhfdLaid(3, source.nextId, source.reference, |data|);
    MhfdParts(header, 3, source.nextId, source.reference, |data|);
    FieldReads(data, 0, header, 0, MHFD);
    WordReads(data, 0, header, 4, 132);
    WordReads(data, 0, header, 8, |data|);
    WordReads(data, 0, header, 16, 2);
    WordReads(data, 0, header, 20, 3);
    WordReads(data, 0, header, 28, source.nextId);
    WordReads(data, 0, header, 48, 2);
    if |source.reference| >= 48 { FieldReads(data, 0, header, 32, source.reference[32..48]); }
    if |source.reference| >= 68 { FieldReads(data, 0, header, 60, source.reference[60..68]); }
  }

  lemma MhfdParts(header: Bytes, datasets: nat, nextId: int, reference: Bytes, total: int)
    requires LaidOut(header, TagFields(MHFD, 132, total) + [Field(16, U32(2))] + [Field(20, U32(datasets))] + [Field(28, U32(nextId))]
                             + Copied(reference, 32, 48) + [Field(48, U32(2))] + Copied(reference, 60, 68), 68)
    ensures At(header, 0, MHFD) && At(header, 4, U32(132)) && At(header, 8, U32(total))
    ensures At(header, 16, U32(2)) && At(header, 20, U32(datasets)) && At(header, 28, U32(nextId)) && At(header, 48, U32(2))
    ensures |reference| >= 48 ==> At(header, 32, reference[32..48])
    ensures |reference| >= 68 ==> At(header, 60, reference[60..68])
  {
    hide U32;
    hide Covered;
    hide At;
    var a := TagFields(MHFD, 132, total) + [Field(16, U32(2))] + [Field(20, U32(datasets))] + [Field(28, U32(nextId))];
    var b, d := Copied(reference, 32, 48), Copied(reference, 60, 68);
    var all := a + b + [Field(48, U32(2))] + d;
    assert all[0] == Field(0, MHFD) && all[1] == Field(4, U32(132)) && all[2] == Field(8, U32(total));
    assert all[3] == Field(16, U32(2)) && all[4] == Field(20, U32(datasets)) && all[5] == Field(28, U32(nextId));
    assert all[6 + |b|] == Field(48, U32(2));
    if |reference| >= 48 { assert all[6] == b[0]; }
    if |reference| >= 68 { assert all[7 + |b|] == d[0]; }
  }

  /** A field of an embedded header, as bytes and as a word. */
  lemma FieldReads(data: Bytes, offset: nat, header: Bytes, at: nat, bytes: Bytes)
    requires At(data, offset, header) && At(header, at, bytes)
    ensures offset + at + |bytes| <= |data| && data[offset + at..offset + at + |bytes|] == bytes
  {
    AtSlice(data, offset, header, at, at + |bytes|);
  }

  lemma WordReads(data: Bytes, offset: nat, header: Bytes, at: nat, value: int)
    requires At(data, offset, header) && At(header, at, U32(value)) && FitsU32(value)
    ensures offset + at + 4 <= |data| && ReadU32(data, offset + at) == value
  {
    hide ReadU32;
    FieldReads(data, offset, header, at, U32(value));
    AtRead(data, offset + at, U32(value), 0);
    UnpackU32(value);
  }

  /** Where dataset `k` of the file starts: behind the root and the datasets before it. */
  ghost function DatasetAt(source: Source, k: nat): nat
    requires source.HasKeys()
  {
    132 + (if k > 0 then |Mhsd(1, Mhli(source.entries, source.locations))| else 0) + (if k > 1 then |Mhsd(2, Mhla())| else 0)
  }

  lemma DatasetsAt(source: Source)
    requires source.Fits()
    ensures var data := source.Database();
      && At(data, DatasetAt(source, 0), Mhsd(1, Mhli(source.entries, source.locations)))
      && At(data, DatasetAt(source, 1), Mhsd(2, Mhla()))
      && At(data, DatasetAt(source, 2), Mhsd(3, Mhlf(source.formatIds, source.imageSizes)))
      && DatasetAt(source, 2) + |Mhsd(3, Mhlf(source.formatIds, source.imageSizes))| == |data|
  {
    hide MhfdHeader;
    hide Mhli;
    hide Mhlf;
    hide Mhla;
    hide Mhsd;
    hide MhliFits;
    hide MhlfFits;
    var data := source.Database();
    var d1, d2, d3 := Mhsd(1, Mhli(source.entries, source.locations)), Mhsd(2, Mhla()), Mhsd(3, Mhlf(source.formatIds, source.imageSizes));
    RootAt(source);
    AtSplit(data, 132, d1 + d2, d3);
    AtSplit(data, 132, d1, d2);
  }

  /** A dataset is its header, with its type at 12, and its child 96 bytes on. */
  lemma DatasetParts(data: Bytes, offset: nat, dsType: int, child: Bytes)
    requires At(data, offset, Mhsd(dsType, child)) && FitsU32(96 + |child|) && FitsU16(dsType)
    ensures offset + 96 + |child| <= |data| && At(data, offset + 96, child)
    ensures data[offset..offset + 4] == MHSD && ReadU32(data, offset + 4) == 96 && ReadU32(data, offset + 8) == 96 + |child|
    ensures ReadU16(data, offset + 12) == dsType
  {
    hide TypedHeader;
    hide ReadU32;
    hide ReadU16;
    var header := TypedHeader(MHSD, 96, 96 + |child|, dsType);
    AtSplit(data, offset, header, child);
    TypedHeaderFields(MHSD, 96, 96 + |child|, dsType);
    AtSlice(data, offset, header, 0, 4);
    AtRead(data, offset, header, 4);
    AtRead(data, offset, header, 8);
    AtRead(data, offset, header, 12);
  }

  lemma {:induction false} FileInfoAt(data: Bytes, offset: nat, ids: seq<nat>, sizes: map<nat, int>, k: nat)
    requires (forall f | f in ids :: f in sizes) && k < |ids| && At(data, offset, MhlfChildren(ids, sizes))
    ensures At(data, offset + 124 * k, Mhif(ids[k], sizes[ids[k]]))
    ensures |MhlfChildren(ids, sizes)| == 124 * |ids|
  {
    hide Mhif;
    var n := |ids| - 1;
    var front, last := MhlfChildren(ids[..n], sizes), Mhif(ids[n], sizes[ids[n]]);
    MhlfLength(ids[..n], sizes);
    MhifLaid(ids[n], sizes[ids[n]]);
    AtSplit(data, offset, front, last);
    if k < n {
      FileInfoAt(data, offset, ids[..n], sizes, k);
    }
  }

  lemma {:induction false} MhlfLength(ids: seq<nat>, sizes: map<nat, int>)
    requires forall f | f in ids :: f in sizes
    ensures |MhlfChildren(ids, sizes)| == 124 * |ids|
  {
    hide Mhif;
    if ids != [] {
      MhlfLength(ids[..|ids| - 1], sizes);
      MhifLaid(ids[|ids| - 1], sizes[ids[|ids| - 1]]);
    }
  }

  /** The k-th file entry: 124 bytes after the one before it, with the k-th format id at 16 and the
      image size of that format at 20. */
  lemma FileInfoFields(source: Source, k: nat)
    requires source.Fits() && k < |source.formatIds|
    ensures var data, offset, f := source.Database(), DatasetAt(source, 2) + 96 + 92 + 124 * k, source.formatIds[k];
      && offset + 124 <= |data| && data[offset..offset + 4] == MHIF
      && ReadU32(data, offset + 4) == 124 && ReadU32(data, offset + 8) == 124
      && ReadU32(data, offset + 16) == f && ReadU32(data, offset + 20) == source.imageSizes[f]
  {
    hide LaidOut;
    hide TagHeader;
    hide TypedHeader;
    hide Mhif;
    hide MhliFits;
    hide Mhli;
    hide MhlfChildren;
    hide ReadU32;
    hide Source.Database;
    var data, f := source.Database(), source.formatIds[k];
    var child := Mhlf(source.formatIds, source.imageSizes);
    DatasetsAt(source);
    DatasetParts(data, DatasetAt(source, 2), 3, child);
    var list := DatasetAt(source, 2) + 96;
    AtSplit(data, list, TagHeader(MHLF, 92, |source.formatIds|), MhlfChildren(source.formatIds, source.imageSizes));
    FileInfoAt(data, list + 92, source.formatIds, source.imageSizes, k);
    assert f in source.formatIds;
    FileInfoReads(data, list + 92 + 124 * k, f, source.imageSizes[f]);
  }

  lemma FileInfoReads(data: Bytes, offset: nat, f: nat, size: int)
    requires At(data, offset, Mhif(f, size)) && FitsU32(f) && FitsU32(size)
    ensures offset + 124 <= |data| && data[offset..offset + 4] == MHIF
    ensures ReadU32(data, offset + 4) == 124 && ReadU32(data, offset + 8) == 124
    ensures ReadU32(data, offset + 16) == f && ReadU32(data, offset + 20) == size
  {
    hide Mhif;
    hide ReadU32;
    var header := Mhif(f, size);
    MhifLaid(f, size);
    MhifParts(header, f, size);
    FieldReads(data, offset, header, 0, MHIF);
    WordReads(data, offset, header, 4, 124);
    WordReads(data, offset, header, 8, 124);
    WordReads(data, offset, header, 16, f);
    WordReads(data, offset, header, 20, size);
  }

  lemma MhifParts(header: Bytes, f: nat, size: int)
    requires LaidOut(header, TagFields(MHIF, 124, 124) + [Field(16, U32(f))] + [Field(20, U32(size))], 24)
    ensures At(header, 0, MHIF) && At(header, 4, U32(124)) && At(header, 8, U32(124))
    ensures At(header, 16, U32(f)) && At(header, 20, U32(size))
  {
    hide U32;
    hide Covered;
    hide At;
    var all := TagFields(MHIF, 124, 124) + [Field(16, U32(f))] + [Field(20, U32(size))];
    assert all[0] == Field(0, MHIF) && all[1] == Field(4, U32(124)) && all[2] == Field(8, U32(124));
    assert all[3] == Field(16, U32(f)) && all[4] == Field(20, U32(size));
  }

  /** Where item `k` starts, and where the frame of its `j`-th format starts inside it. */
  ghost function ItemAt(source: Source, k: nat): nat
    requires source.HasKeys() && k <= |source.entries|
  {
    DatasetAt(source, 0) + 96 + 92 + |MhliChildren(source.entries[..k], source.locations)|
  }

  ghost function FrameAt(source: Source, k: nat, j: nat): nat
    requires source.HasKeys() && k < |source.entries| && j <= |SortedOf(source.entries[k].formats.Keys)|
  {
    var e := source.entries[k];
    SortedOfSpec(e.formats.Keys);
    ItemAt(source, k) + 152 + |MhiiChildren(SortedOf(e.formats.Keys)[..j], e, source.locations[e.imgId])|
  }

  lemma {:induction false} ItemIn(data: Bytes, offset: nat, entries: seq<ArtworkEntry>, locations: map<int, Locations>, k: nat)
    requires (forall e | e in entries :: e.imgId in locations) && k < |entries|
    requires At(data, offset, MhliChildren(entries, locations))
    ensures At(data, offset + |MhliChildren(entries[..k], locations)|, Mhii(entries[k], locations[entries[k].imgId]))
  {
    hide Mhii;
    var n := |entries| - 1;
    AtSplit(data, offset, MhliChildren(entries[..n], locations), Mhii(entries[n], locations[entries[n].imgId]));
    if k < n {
      assert entries[..n][..k] == entries[..k];
      ItemIn(data, offset, entries[..n], locations, k);
    }
  }

  lemma {:induction false} FrameIn(data: Bytes, offset: nat, ids: seq<nat>, e: ArtworkEntry, locations: Locations, j: nat)
    requires (forall f | f in ids :: f in e.formats) && j < |ids| && At(data, offset, MhiiChildren(ids, e, locations))
    ensures At(data, offset + |MhiiChildren(ids[..j], e, locations)|, MhiiChild(ids[j], e, locations))
  {
    hide MhiiChild;
    var n := |ids| - 1;
    AtSplit(data, offset, MhiiChildren(ids[..n], e, locations), MhiiChild(ids[n], e, locations));
    if j < n {
      assert ids[..n][..j] == ids[..j];
      FrameIn(data, offset, ids[..n], e, locations, j);
    }
  }

  lemma ItemInFile(source: Source, k: nat)
    requires source.Fits() && k < |source.entries|
    ensures var e := source.entries[k];
            At(source.Database(), ItemAt(source, k), Mhii(e, source.locations[e.imgId]))
  {
    hide Mhii;
    hide Mhlf;
    hide MhiiFits;
    hide MhlfFits;
    hide TagHeader;
    hide TypedHeader;
    hide MhliChildren;
    hide Source.Database;
    var data, child := source.Database(), Mhli(source.entries, source.locations);
    DatasetsAt(source);
    DatasetParts(data, DatasetAt(source, 0), 1, child);
    var list := DatasetAt(source, 0) + 96;
    AtSplit(data, list, TagHeader(MHLI, 92, |source.entries|), MhliChildren(source.entries, source.locations));
    ItemIn(data, list + 92, source.entries, source.locations, k);
  }

  lemma MhiiParts(header: Bytes, e: ArtworkEntry, children: nat, total: int)
    requires LaidOut(header, TagFields(MHII, 152, total) + [Field(12, U32(children))] + [Field(16, U32(e.imgId))]
                             + [Field(20, U64(e.dbTrackId))] + [Field(48, U32(e.srcImgSize))], 52)
    ensures At(header, 0, MHII) && At(header, 4, U32(152)) && At(header, 8, U32(total)) && At(header, 12, U32(children))
    ensures At(header, 16, U32(e.imgId)) && At(header, 20, U64(e.dbTrackId)) && At(header, 48, U32(e.srcImgSize))
  {
    hide U32;
    hide U64;
    hide Covered;
    hide At;
    var all := TagFields(MHII, 152, total) + [Field(12, U32(children))] + [Field(16, U32(e.imgId))]
               + [Field(20, U64(e.dbTrackId))] + [Field(48, U32(e.srcImgSize))];
    assert all[0] == Field(0, MHII) && all[1] == Field(4, U32(152)) && all[2] == Field(8, U32(total));
    assert all[3] == Field(12, U32(children)) && all[4] == Field(16, U32(e.imgId));
    assert all[5] == Field(20, U64(e.dbTrackId)) && all[6] == Field(48, U32(e.srcImgSize));
  }

  /** The k-th item, as it reads in the file. */
  lemma ItemFields(source: Source, k: nat)
    requires source.Fits() && k < |source.entries|
    ensures var data, offset, e := source.Database(), ItemAt(source, k), source.entries[k];
      && offset + 152 <= |data| && data[offset..offset + 4] == MHII && ReadU32(data, offset + 4) == 152
      && ReadU32(data, offset + 8) == |Mhii(e, source.locations[e.imgId])| && ReadU32(data, offset + 12) == |e.formats.Keys|
      && ReadU32(data, offset + 16) == e.imgId && ReadU64(data, offset + 20) == e.dbTrackId
      && ReadU32(data, offset + 48) == e.srcImgSize
  {
    hide LaidOut;
    hide MhiiHeader;
    hide MhiiChildFits;
    hide MhiiChildren;
    hide SortedOf;
    hide ReadU32;
    hide ReadU64;
    hide Source.Database;
    hide Mhli;
    hide Mhlf;
    hide MhlfFits;
    var data, e := source.Database(), source.entries[k];
    assert e in source.entries;
    var ids := SortedOf(e.formats.Keys);
    SortedOfSpec(e.formats.Keys);
    ItemInFile(source, k);
    var children := MhiiChildren(ids, e, source.locations[e.imgId]);
    var header := MhiiHeader(e, |ids|, 152 + |children|);
    AtSplit(data, ItemAt(source, k), header, children);
    MhiiLaid(e, |ids|, 152 + |children|);
    ItemReads(data, ItemAt(source, k), e, |ids|, 152 + |children|);
  }

  lemma ItemReads(data: Bytes, offset: nat, e: ArtworkEntry, children: nat, total: int)
    requires At(data, offset, MhiiHeader(e, children, total)) && FitsU32(children) && FitsU32(total)
    requires FitsU32(e.imgId) && FitsU64(e.dbTrackId) && FitsU32(e.srcImgSize)
    ensures offset + 152 <= |data| && data[offset..offset + 4] == MHII && ReadU32(data, offset + 4) == 152
    ensures ReadU32(data, offset + 8) == total && ReadU32(data, offset + 12) == children
    ensures ReadU32(data, offset + 16) == e.imgId && ReadU64(data, offset + 20) == e.dbTrackId
    ensures ReadU32(data, offset + 48) == e.srcImgSize
  {
    hide MhiiHeader;
    hide LaidOut;
    hide ReadU32;
    hide ReadU64;
    var header := MhiiHeader(e, children, total);
    MhiiLaid(e, children, total);
    MhiiParts(header, e, children, total);
    FieldReads(data, offset, header, 0, MHII);
    WordReads(data, offset, header, 4, 152);
    WordReads(data, offset, header, 8, total);
    WordReads(data, offset, header, 12, children);
    WordReads(data, offset, header, 16, e.imgId);
    WordReads(data, offset, header, 48, e.srcImgSize);
    FieldReads(data, offset, header, 20, U64(e.dbTrackId));
    AtRead(data, offset + 20, U64(e.dbTrackId), 0);
    UnpackU64(e.dbTrackId);
  }

  lemma MhniParts(header: Bytes, formatId: nat, location: IthmbLocation, p: FormatPayload, total: int)
    requires LaidOut(header,
                     TagFields(MHNI, 76, total) + [Field(12, U32(1))] + [Field(16, U32(formatId))]
                     + [Field(20, U32(location.offset))] + [Field(24, U32(p.size))] + [Field(28, U16(Max(0, p.vpad)))]
                     + [Field(30, U16(Max(0, p.hpad)))] + [Field(32, U16(p.height))] + [Field(34, U16(p.width))]
                     + [Field(40, U32(p.size))], 44)
    ensures At(header, 0, MHNI) && At(header, 4, U32(76)) && At(header, 8, U32(total)) && At(header, 12, U32(1))
    ensures At(header, 16, U32(formatId)) && At(header, 20, U32(location.offset)) && At(header, 24, U32(p.size))
    ensures At(header, 28, U16(Max(0, p.vpad))) && At(header, 30, U16(Max(0, p.hpad)))
    ensures At(header, 32, U16(p.height)) && At(header, 34, U16(p.width)) && At(header, 40, U32(p.size))
  {
    hide U32;
    hide U16;
    hide Max;
    hide Covered;
    hide At;
    var all := TagFields(MHNI, 76, total) + [Field(12, U32(1))] + [Field(16, U32(formatId))]
               + [Field(20, U32(location.offset))] + [Field(24, U32(p.size))] + [Field(28, U16(Max(0, p.vpad)))]
               + [Field(30, U16(Max(0, p.hpad)))] + [Field(32, U16(p.height))] + [Field(34, U16(p.width))]
               + [Field(40, U32(p.size))];
    assert all[0] == Field(0, MHNI) && all[1] == Field(4, U32(76)) && all[2] == Field(8, U32(total)) && all[3] == Field(12, U32(1));
    assert all[4] == Field(16, U32(formatId)) && all[5] == Field(20, U32(location.offset)) && all[6] == Field(24, U32(p.size));
    assert all[7] == Field(28, U16(Max(0, p.vpad))) && all[8] == Field(30, U16(Max(0, p.hpad)));
    assert all[9] == Field(32, U16(p.height)) && all[10] == Field(34, U16(p.width)) && all[11] == Field(40, U32(p.size));
  }

  lemma ShortReads(data: Bytes, offset: nat, header: Bytes, at: nat, value: int)
    requires At(data, offset, header) && At(header, at, U16(value)) && FitsU16(value)
    ensures offset + at + 2 <= |data| && ReadU16(data, offset + at) == value
  {
    hide ReadU16;
    FieldReads(data, offset, header, at, U16(value));
    AtRead(data, offset + at, U16(value), 0);
    UnpackU16(value);
  }

  /** What a name chunk and its file name child look like in the file. */
  ghost predicate IsFrameAt(data: Bytes, offset: nat, formatId: nat, location: IthmbLocation, p: FormatPayload) {
    && offset + 76 <= |data| && data[offset..offset + 4] == MHNI && ReadU32(data, offset + 4) == 76
    && ReadU32(data, offset + 12) == 1 && ReadU32(data, offset + 16) == formatId
    && ReadU32(data, offset + 20) == location.offset && ReadU32(data, offset + 24) == p.size
    && ReadU16(data, offset + 28) == (if p.vpad > 0 then p.vpad else 0)
    && ReadU16(data, offset + 30) == (if p.hpad > 0 then p.hpad else 0)
    && ReadU16(data, offset + 32) == p.height && ReadU16(data, offset + 34) == p.width && ReadU32(data, offset + 40) == p.size
    && At(data, offset + 76, MhodString(":" + IthmbPaths.Normalize(formatId, location.filename)))
  }

  lemma FrameReads(data: Bytes, offset: nat, formatId: nat, location: IthmbLocation, p: FormatPayload)
    requires At(data, offset, Mhni(formatId, location, p)) && MhniFits(formatId, location, p)
    ensures IsFrameAt(data, offset, formatId, location, p)
  {
    hide MhniHeader;
    hide MhodString;
    hide IthmbPaths.Normalize;
    hide LaidOut;
    hide ReadU32;
    hide ReadU16;
    hide Utf16.Encode;
    var name := MhniName(formatId, location.filename);
    var header := MhniHeader(formatId, location, p, 76 + |name|);
    AtSplit(data, offset, header, name);
    MhniLaid(formatId, location, p, 76 + |name|);
    MhniParts(header, formatId, location, p, 76 + |name|);
    FieldReads(data, offset, header, 0, MHNI);
    WordReads(data, offset, header, 4, 76);
    WordReads(data, offset, header, 12, 1);
    WordReads(data, offset, header, 16, formatId);
    WordReads(data, offset, header, 20, location.offset);
    WordReads(data, offset, header, 24, p.size);
    ShortReads(data, offset, header, 28, Max(0, p.vpad));
    ShortReads(data, offset, header, 30, Max(0, p.hpad));
    ShortReads(data, offset, header, 32, p.height);
    ShortReads(data, offset, header, 34, p.width);
    WordReads(data, offset, header, 40, p.size);
  }

  /** The frame of the j-th format, in increasing order, of the k-th item: a container of type 2, and
      24 bytes on the name chunk with all its fields, the size standing in it twice. */
  lemma FrameFields(source: Source, k: nat, j: nat)
    requires source.Fits() && k < |source.entries| && j < |SortedOf(source.entries[k].formats.Keys)|
    ensures var data, offset, e := source.Database(), FrameAt(source, k, j), source.entries[k];
      var f := SortedOf(e.formats.Keys)[j];
      && f in e.formats && offset + 24 <= |data| && data[offset..offset + 4] == MHOD
      && ReadU32(data, offset + 4) == 24 && ReadU16(data, offset + 12) == 2
      && IsFrameAt(data, offset + 24, f, LocationOf(f, source.locations[e.imgId]), e.formats[f])
  {
    hide MhiiHeader;
    hide MhniFits;
    hide Mhni;
    hide SortedOf;
    hide LocationOf;
    hide IsFrameAt;
    hide ReadU32;
    hide ReadU16;
    hide Source.Database;
    hide Mhli;
    hide Mhlf;
    hide MhlfFits;
    hide TypedHeader;
    hide MhliChildren;
    var data, e := source.Database(), source.entries[k];
    var ids, locations := SortedOf(e.formats.Keys), source.locations[e.imgId];
    var f := ids[j];
    SortedOfSpec(e.formats.Keys);
    assert e in source.entries && f in ids && MhiiChildFits(f, e, locations);
    ItemInFile(source, k);
    AtSplit(data, ItemAt(source, k), MhiiHeader(e, |ids|, 152 + |MhiiChildren(ids, e, locations)|), MhiiChildren(ids, e, locations));
    FrameIn(data, ItemAt(source, k) + 152, ids, e, locations, j);
    var child := Mhni(f, LocationOf(f, locations), e.formats[f]);
    ContainerParts(data, FrameAt(source, k, j), child);
    FrameReads(data, FrameAt(source, k, j) + 24, f, LocationOf(f, locations), e.formats[f]);
  }

  lemma ContainerParts(data: Bytes, offset: nat, child: Bytes)
    requires At(data, offset, MhodContainer(child)) && FitsU32(24 + |child|)
    ensures offset + 24 + |child| <= |data| && At(data, offset + 24, child)
    ensures data[offset..offset + 4] == MHOD && ReadU32(data, offset + 4) == 24 && ReadU32(data, offset + 8) == 24 + |child|
    ensures ReadU16(data, offset + 12) == 2
  {
    hide TypedHeader;
    hide ReadU32;
    hide ReadU16;
    var header := TypedHeader(MHOD, 24, 24 + |child|, 2);
    AtSplit(data, offset, header, child);
    TypedHeaderFields(MHOD, 24, 24 + |child|, 2);
    AtSlice(data, offset, header, 0, 4);
    AtRead(data, offset, header, 4);
    AtRead(data, offset, header, 8);
    AtRead(data, offset, header, 12);
  }
}
