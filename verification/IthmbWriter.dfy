/** The shard-writing closures of `write_artworkdb`. */
module IthmbWriter {
  import opened Bytes
  import opened ArtworkTypes
  import opened ArtworkDbFormat
  import opened IthmbPlanner
  import opened IthmbPaths
  import opened IthmbShards

  /** Where the frame of one payload was put, or left. */
  ghost predicate Placed(log: Log, asset: AssetRef, f: nat, p: FormatPayload, location: IthmbLocation) {
    match p
    case Passthrough(filename, offset, _, _, _, _, _) => location == IthmbLocation(filename, offset)
    case Encoded(data, _, _, _, _, _) =>
      exists k :: 0 <= k < |log| && log[k].asset == asset && log[k].f == f && log[k].data == data
        && location == IthmbLocation(IthmbFilename(f, log[k].index), log[k].offset)
  }

  ghost predicate EntryPlaced(log: Log, asset: AssetRef, formats: map<nat, FormatPayload>, locations: Locations) {
    locations.Keys == formats.Keys && forall f | f in formats :: Placed(log, asset, f, formats[f], locations[f])
  }

  lemma PlacedGrows(log: Log, more: Log, asset: AssetRef, f: nat, p: FormatPayload, location: IthmbLocation)
    requires log <= more && Placed(log, asset, f, p, location)
    ensures Placed(more, asset, f, p, location)
  {
    if p.Encoded? {
      var k :| 0 <= k < |log| && log[k].asset == asset && log[k].f == f && log[k].data == p.data
        && location == IthmbLocation(IthmbFilename(f, log[k].index), log[k].offset);
      assert more[k] == log[k];
    }
  }

  lemma EntryPlacedGrows(log: Log, more: Log, asset: AssetRef, formats: map<nat, FormatPayload>, locations: Locations)
    requires log <= more && EntryPlaced(log, asset, formats, locations)
    ensures EntryPlaced(more, asset, formats, locations)
  {
    hide Placed;
    forall f | f in formats ensures Placed(more, asset, f, formats[f], locations[f]) {
      PlacedGrows(log, more, asset, f, formats[f], locations[f]);
    }
  }

  /** `ithmb_files`, `ithmb_state`, `ithmb_temp_paths` and the device they write to. */
  class ShardWriter {
    const start: map<nat, nat>
    const protected: map<nat, set<string>>
    var disk: Disk
    var temps: map<(nat, nat), FileKey>
    var cursors: map<nat, Cursor>
    var files: set<nat>
    var nextSerial: nat
    ghost var log: Log

    /** Before any frame is written; `formats` are the ones that will be. */
    constructor (disk: Disk, formats: set<nat>, start: map<nat, nat>, protected: map<nat, set<string>>, serial: nat)
      requires forall n: nat | Temp(n) in disk :: n < serial
      ensures this.start == start && this.protected == protected && this.disk == disk
      ensures Valid() && log == [] && temps == map[] && files == {} && cursors.Keys == formats
    {
      this.start, this.protected, this.disk := start, protected, disk;
      temps, files, nextSerial, log := map[], {}, serial, [];
      cursors := map f | f in formats :: Cursor(if f in start then start[f] else 0, 0);
      new;
      NothingWritten(View());
    }

    ghost function View(): Shards
      reads this
    {
      Shards(start, protected, disk, temps, cursors, files, log)
    }

    ghost predicate Valid()
      reads this
    {
      View().Valid() && FreshSerials()
    }

    ghost predicate FreshSerials()
      reads this
    {
      forall n: nat | Temp(n) in disk :: n < nextSerial
    }

    /** The first index after `last` whose shard name is not protected. */
    static method NextUnprotected(f: nat, last: nat, names: set<string>) returns (index: nat)
      ensures last < index && IthmbFilename(f, index) !in names
      ensures forall j | last < j < index :: IthmbFilename(f, j) in names
    {
      hide IthmbFilename;
      index := last + 1;
      ghost var left := names;
      while IthmbFilename(f, index) in names
        invariant last < index && left <= names
        invariant forall j | last < j < index :: IthmbFilename(f, j) in names
        invariant forall j | index <= j && IthmbFilename(f, j) in names :: IthmbFilename(f, j) in left
        decreases left
      {
        left := left - {IthmbFilename(f, index)};
        forall j | index < j ensures IthmbFilename(f, j) != IthmbFilename(f, index) {
          if IthmbFilename(f, j) == IthmbFilename(f, index) { FilenameInjective(f, j, f, index); }
        }
        index := index + 1;
      }
    }

    /** `_open_next_ithmb`: closes the current shard and opens the next unprotected one. */
    method OpenNext(f: nat)
      requires View().Stored() && View().Cursored() && View().Contiguous() && FreshSerials() && f in cursors
      modifies this
      ensures f in cursors && old(cursors[f]).index < cursors[f].index
      ensures View() == Opened(old(View()), f, cursors[f].index, old(nextSerial))
      ensures Temp(old(nextSerial)) !in old(disk)
      ensures IthmbFilename(f, cursors[f].index) !in View().ProtectedOf(f)
      ensures View().Stored() && View().Cursored() && View().Contiguous() && FreshSerials()
    {
      hide Shards.Stored;
      hide Shards.Cursored;
      hide Shards.Contiguous;
      hide IthmbFilename;
      ghost var before := View();
      files := files - {f};
      var names := if f in protected then protected[f] else {};
      var index := NextUnprotected(f, cursors[f].index, names);
      StartBelowCursor(before, f);
      OpenedStored(before, f, index, nextSerial);
      OpenedCursored(before, f, index, nextSerial);
      OpenedContiguous(before, f, index, nextSerial);
      cursors := cursors[f := Cursor(index, 0)];
      temps := temps[(f, index) := Temp(nextSerial)];
      disk := disk[Temp(nextSerial) := []];
      files := files + {f};
      nextSerial := nextSerial + 1;
      assert files == before.open + {f};
    }

    /** Makes sure the newest shard of `f` can take `size` more bytes, opening one if need be. */
    method Reserve(f: nat, size: nat)
      requires Valid() && f in cursors
      modifies this
      ensures Ready(old(View()), View(), f, size, old(nextSerial)) && FreshSerials()
      ensures log == old(log) && cursors.Keys == old(cursors.Keys)
      ensures SameFinals(old(disk), disk)
    {
      hide Shards.Stored;
      hide Shards.Contiguous;
      hide Shards.Budgeted;
      ghost var before := View();
      var cursor := cursors[f];
      if f !in files || (cursor.offset > 0 && cursor.offset + size > ITHMB_MAX_SIZE_BYTES) {
        OpenNext(f);
      }
    }

    /** `_write_encoded_ithmb_payload` */
    method WritePayload(f: nat, ghost asset: AssetRef, data: Bytes) returns (location: IthmbLocation)
      requires Valid() && f in cursors
      modifies this
      ensures Valid() && cursors.Keys == old(cursors.Keys)
      ensures |log| == |old(log)| + 1 && log[..|old(log)|] == old(log)
      ensures var r := log[|old(log)|];
              r.asset == asset && r.f == f && r.data == data
              && location == IthmbLocation(IthmbFilename(f, r.index), r.offset)
      ensures SameFinals(old(disk), disk)
    {
      hide Shards.Stored;
      hide Shards.Cursored;
      hide Shards.Contiguous;
      hide Shards.Budgeted;
      hide Ready;
      ghost var before := View();
      ghost var serial := nextSerial;
      Reserve(f, |data|);
      ghost var ready := View();
      ReadyTemp(before, ready, f, |data|, serial);
      location := IthmbLocation(IthmbFilename(f, cursors[f].index), cursors[f].offset);
      ghost var r := Record(asset, f, cursors[f].index, cursors[f].offset, data);
      var temp := temps[(f, cursors[f].index)];
      AppendValid(before, ready, r, serial);
      disk := disk[temp := disk[temp] + data];
      cursors := cursors[f := Cursor(cursors[f].index, cursors[f].offset + |data|)];
      log := log + [r];
      assert View() == Append(ready, r);
    }

    /** One frame of an asset: written, or left where it is. */
    method WriteFrame(ghost asset: AssetRef, f: nat, p: FormatPayload) returns (location: IthmbLocation)
      requires Valid() && (p.Encoded? ==> f in cursors)
      requires OncePerAsset(log) && forall k | 0 <= k < |log| :: log[k].asset != asset || log[k].f != f
      modifies this
      ensures Valid() && cursors.Keys == old(cursors.Keys) && SameFinals(old(disk), disk)
      ensures old(log) <= log && OncePerAsset(log)
      ensures forall k | |old(log)| <= k < |log| :: log[k].asset == asset && log[k].f == f && p.Encoded? && log[k].data == p.data
      ensures Placed(log, asset, f, p, location)
    {
      hide Shards.Valid;
      hide Placed;
      hide OncePerAsset;
      ghost var before := log;
      match p {
        case Encoded(data, _, _, _, _, _) =>
          location := WritePayload(f, asset, data);
          assert log == before + [log[|before|]];
          OnceMore(before, log[|before|]);
          PlacedLast(log, asset, f, p, location);
        case Passthrough(filename, offset, _, _, _, _, _) =>
          location := IthmbLocation(filename, offset);
          SameFinalsSelf(disk);
          PassedThrough(log, asset, f, p, location);
      }
    }

    /** The frames of one asset, format by format. */
    method WriteAsset(ghost asset: AssetRef, formats: map<nat, FormatPayload>, formatIds: seq<nat>)
      returns (locations: Locations)
      requires Valid()
      requires forall f | f in formats :: f in formatIds && (formats[f].Encoded? ==> f in cursors)
      requires forall i, j | 0 <= i < j < |formatIds| :: formatIds[i] != formatIds[j]
      requires forall k | 0 <= k < |log| :: log[k].asset != asset
      requires OncePerAsset(log)
      modifies this
      ensures Valid() && cursors.Keys == old(cursors.Keys) && SameFinals(old(disk), disk)
      ensures old(log) <= log && OncePerAsset(log)
      ensures forall k | |old(log)| <= k < |log| :: RecordOf(log[k], asset, formats)
      ensures EntryPlaced(log, asset, formats, locations)
    {
      hide Shards.Valid;
      hide Placed;
      hide OncePerAsset;
      hide SameFinals;
      locations := map[];
      SameFinalsSelf(disk);
      for i := 0 to |formatIds|
        invariant Valid() && cursors.Keys == old(cursors.Keys) && SameFinals(old(disk), disk)
        invariant old(log) <= log && OncePerAsset(log)
        invariant forall k | |old(log)| <= k < |log| :: RecordOf(log[k], asset, formats) && log[k].f in formatIds[..i]
        invariant forall f :: f in locations <==> f in formats && f in formatIds[..i]
        invariant forall f | f in locations :: Placed(log, asset, f, formats[f], locations[f])
      {
        var f := formatIds[i];
        ghost var before, disk0 := log, disk;
        assert formatIds[..i + 1] == formatIds[..i] + [f];
        assert f !in formatIds[..i];
        if f in formats {
          var location := WriteFrame(asset, f, formats[f]);
          SameFinalsTwice(old(disk), disk0, disk);
          KeepPlaced(before, log, asset, formats, locations);
          locations := locations[f := location];
        }
      }
      assert formatIds[..|formatIds|] == formatIds;
    }

    /** Writes each asset's frames once; entries that share an asset share its locations. */
    method WriteEntries(entries: seq<ArtworkEntry>, assetOf: map<int, AssetRef>, formatIds: seq<nat>)
      returns (locations: map<int, Locations>)
      requires Valid() && log == []
      requires Consistent(entries, assetOf, formatIds, cursors.Keys)
      modifies this
      ensures View().Stored() && View().Contiguous() && View().Budgeted()
      ensures Temp(nextSerial) !in disk
      ensures cursors.Keys == old(cursors.Keys) && SameFinals(old(disk), disk) && files == {}
      ensures OncePerAsset(log)
      ensures forall k | 0 <= k < |log| :: FromEntries(log[k], entries, assetOf)
      ensures forall e | e in entries ::
        e.imgId in locations && EntryPlaced(log, assetOf[e.imgId], e.formats, locations[e.imgId])
    {
      hide Shards.Valid;
      hide EntryPlaced;
      hide RecordOf;
      hide FromEntries;
      hide AllPlaced;
      hide AllSettled;
      hide SameFinals;
      locations := map[];
      var written: map<AssetRef, Locations> := map[];
      ghost var formatsOf: map<AssetRef, map<nat, FormatPayload>> := map[];
      AllPlacedNone(log);
      NoneSettled(entries, assetOf);
      SameFinalsSelf(disk);
      for i := 0 to |entries|
        invariant Valid() && cursors.Keys == old(cursors.Keys) && SameFinals(old(disk), disk)
        invariant OncePerAsset(log)
        invariant forall k | 0 <= k < |log| :: log[k].asset in written && FromEntries(log[k], entries, assetOf)
        invariant AllPlaced(log, formatsOf, written) && formatsOf.Keys == written.Keys
        invariant AllSettled(entries[..i], assetOf, formatsOf, written, locations)
      {
        var entry := entries[i];
        assert entry in entries;
        var asset := assetOf[entry.imgId];
        if asset in written {
          SettleShared(entries, i, assetOf, formatsOf, written, locations);
          locations := locations[entry.imgId := written[asset]];
        } else {
          ghost var before, disk0 := log, disk;
          var placed := WriteAsset(asset, entry.formats, formatIds);
          SameFinalsTwice(old(disk), disk0, disk);
          RecordsFromEntry(log, |before|, asset, entry, entries, assetOf);
          AllPlacedMore(before, log, formatsOf, written, asset, entry.formats, placed);
          SettleNew(entries, i, assetOf, formatsOf, written, locations, placed);
          written := written[asset := placed];
          formatsOf := formatsOf[asset := entry.formats];
          locations := locations[entry.imgId := placed];
        }
      }
      assert entries[..|entries|] == entries;
      forall e | e in entries
        ensures e.imgId in locations && EntryPlaced(log, assetOf[e.imgId], e.formats, locations[e.imgId])
      {
        SettledOne(entries, assetOf, formatsOf, written, locations, e);
        AllPlacedOne(log, formatsOf, written, assetOf[e.imgId]);
      }
      ValidParts(View());
      files := {};
    }
  }

  /** The entry's locations are those written for its asset. */
  ghost predicate Settled(e: ArtworkEntry, assetOf: map<int, AssetRef>, formatsOf: map<AssetRef, map<nat, FormatPayload>>,
                          written: map<AssetRef, Locations>, locations: map<int, Locations>)
  {
    && e.imgId in assetOf && assetOf[e.imgId] in written && assetOf[e.imgId] in formatsOf && e.imgId in locations
    && locations[e.imgId] == written[assetOf[e.imgId]] && formatsOf[assetOf[e.imgId]] == e.formats
  }

  ghost predicate AllSettled(entries: seq<ArtworkEntry>, assetOf: map<int, AssetRef>,
                             formatsOf: map<AssetRef, map<nat, FormatPayload>>, written: map<AssetRef, Locations>,
                             locations: map<int, Locations>)
  {
    && (forall j | 0 <= j < |entries| :: Settled(entries[j], assetOf, formatsOf, written, locations))
    && (forall a | a in written :: exists j :: 0 <= j < |entries| && entries[j].imgId in assetOf && assetOf[entries[j].imgId] == a)
  }

  lemma NoneSettled(entries: seq<ArtworkEntry>, assetOf: map<int, AssetRef>)
    ensures AllSettled(entries[..0], assetOf, map[], map[], map[])
  {
  }

  lemma SettledOne(entries: seq<ArtworkEntry>, assetOf: map<int, AssetRef>, formatsOf: map<AssetRef, map<nat, FormatPayload>>,
                   written: map<AssetRef, Locations>, locations: map<int, Locations>, e: ArtworkEntry)
    requires AllSettled(entries, assetOf, formatsOf, written, locations) && e in entries
    ensures Settled(e, assetOf, formatsOf, written, locations)
  {
  }

  /** An entry whose asset was written for an earlier entry. */
  lemma SettleShared(entries: seq<ArtworkEntry>, i: nat, assetOf: map<int, AssetRef>,
                     formatsOf: map<AssetRef, map<nat, FormatPayload>>, written: map<AssetRef, Locations>, locations: map<int, Locations>)
    requires i < |entries| && AllSettled(entries[..i], assetOf, formatsOf, written, locations)
    requires entries[i].imgId in assetOf && assetOf[entries[i].imgId] in written
    requires forall j, k | 0 <= j < k < |entries| :: entries[j].imgId != entries[k].imgId
    requires forall e, d | e in entries && d in entries && e.imgId in assetOf && d.imgId in assetOf && assetOf[e.imgId] == assetOf[d.imgId] ::
               e.formats == d.formats
    ensures AllSettled(entries[..i + 1], assetOf, formatsOf, written,
                       locations[entries[i].imgId := written[assetOf[entries[i].imgId]]])
  {
    var a := assetOf[entries[i].imgId];
    var front, all := entries[..i], entries[..i + 1];
    var locations' := locations[entries[i].imgId := written[a]];
    var j :| 0 <= j < |front| && front[j].imgId in assetOf && assetOf[front[j].imgId] == a;
    assert all == front + [entries[i]];
    forall k | 0 <= k < |all| ensures Settled(all[k], assetOf, formatsOf, written, locations') {
      if k < i {
        assert Settled(front[k], assetOf, formatsOf, written, locations);
        assert all[k].imgId != entries[i].imgId;
      } else {
        assert Settled(front[j], assetOf, formatsOf, written, locations);
        assert entries[j] in entries && entries[i] in entries;
      }
    }
    hide Settled;
    forall b | b in written
      ensures exists k :: 0 <= k < |all| && all[k].imgId in assetOf && assetOf[all[k].imgId] == b
    {
      var k :| 0 <= k < |front| && front[k].imgId in assetOf && assetOf[front[k].imgId] == b;
      assert all[k] == front[k];
    }
  }

  /** An entry whose asset has just been written. */
  lemma SettleNew(entries: seq<ArtworkEntry>, i: nat, assetOf: map<int, AssetRef>,
                  formatsOf: map<AssetRef, map<nat, FormatPayload>>, written: map<AssetRef, Locations>, locations: map<int, Locations>,
                  placed: Locations)
    requires i < |entries| && AllSettled(entries[..i], assetOf, formatsOf, written, locations)
    requires entries[i].imgId in assetOf && assetOf[entries[i].imgId] !in written
    requires forall j, k | 0 <= j < k < |entries| :: entries[j].imgId != entries[k].imgId
    ensures var a := assetOf[entries[i].imgId];
            AllSettled(entries[..i + 1], assetOf, formatsOf[a := entries[i].formats], written[a := placed],
                       locations[entries[i].imgId := placed])
  {
    var a := assetOf[entries[i].imgId];
    var front, all := entries[..i], entries[..i + 1];
    var formatsOf', written', locations' :=
      formatsOf[a := entries[i].formats], written[a := placed], locations[entries[i].imgId := placed];
    assert all == front + [entries[i]];
    forall j | 0 <= j < |all| ensures Settled(all[j], assetOf, formatsOf', written', locations') {
      if j < i {
        assert Settled(front[j], assetOf, formatsOf, written, locations);
        assert all[j].imgId != entries[i].imgId;
      }
    }
    hide Settled;
    forall b | b in written'
      ensures exists j :: 0 <= j < |all| && all[j].imgId in assetOf && assetOf[all[j].imgId] == b
    {
      if b == a {
        assert all[i] == entries[i];
      } else {
        var j :| 0 <= j < |front| && front[j].imgId in assetOf && assetOf[front[j].imgId] == b;
        assert all[j] == front[j];
      }
    }
  }

  ghost predicate AllPlaced(log: Log, formatsOf: map<AssetRef, map<nat, FormatPayload>>, written: map<AssetRef, Locations>) {
    forall a | a in written :: a in formatsOf && EntryPlaced(log, a, formatsOf[a], written[a])
  }

  lemma AllPlacedNone(log: Log)
    ensures AllPlaced(log, map[], map[])
  {
  }

  lemma AllPlacedOne(log: Log, formatsOf: map<AssetRef, map<nat, FormatPayload>>, written: map<AssetRef, Locations>, a: AssetRef)
    requires AllPlaced(log, formatsOf, written) && a in written
    ensures a in formatsOf && EntryPlaced(log, a, formatsOf[a], written[a])
  {
  }

  lemma AllPlacedMore(log: Log, more: Log, formatsOf: map<AssetRef, map<nat, FormatPayload>>, written: map<AssetRef, Locations>,
                      asset: AssetRef, formats: map<nat, FormatPayload>, placed: Locations)
    requires AllPlaced(log, formatsOf, written) && log <= more && EntryPlaced(more, asset, formats, placed)
    ensures AllPlaced(more, formatsOf[asset := formats], written[asset := placed])
  {
    hide EntryPlaced;
    forall a | a in written ensures a in formatsOf && EntryPlaced(more, a, formatsOf[a], written[a]) {
      EntryPlacedGrows(log, more, a, formatsOf[a], written[a]);
    }
  }

  lemma RecordsFromEntry(log: Log, n: nat, asset: AssetRef, e: ArtworkEntry, entries: seq<ArtworkEntry>, assetOf: map<int, AssetRef>)
    requires e in entries && e.imgId in assetOf && assetOf[e.imgId] == asset
    requires forall k | n <= k < |log| :: RecordOf(log[k], asset, e.formats)
    ensures forall k | n <= k < |log| :: FromEntries(log[k], entries, assetOf) && log[k].asset == asset
  {
    forall k | n <= k < |log| ensures FromEntries(log[k], entries, assetOf) && log[k].asset == asset {
      RecordFromEntry(log[k], asset, e, entries, assetOf);
    }
  }

  lemma SameFinalsSelf(disk: Disk)
    ensures SameFinals(disk, disk)
  {
  }

  lemma SameFinalsTwice(a: Disk, b: Disk, c: Disk)
    requires SameFinals(a, b) && SameFinals(b, c)
    ensures SameFinals(a, c)
  {
  }

  /** `r` is the frame that `asset` has in `formats`. */
  ghost predicate RecordOf(r: Record, asset: AssetRef, formats: map<nat, FormatPayload>) {
    r.asset == asset && r.f in formats && formats[r.f].Encoded? && formats[r.f].data == r.data
  }

  ghost predicate FromEntries(r: Record, entries: seq<ArtworkEntry>, assetOf: map<int, AssetRef>) {
    exists e :: e in entries && e.imgId in assetOf && RecordOf(r, assetOf[e.imgId], e.formats)
  }

  lemma RecordFromEntry(r: Record, asset: AssetRef, e: ArtworkEntry, entries: seq<ArtworkEntry>, assetOf: map<int, AssetRef>)
    requires e in entries && e.imgId in assetOf && assetOf[e.imgId] == asset && RecordOf(r, asset, e.formats)
    ensures FromEntries(r, entries, assetOf) && r.asset == asset
  {
  }

  /** What `write_artworkdb` hands the shard writer: fresh image ids, one payload per asset,
      and every format that occurs. */
  ghost predicate Consistent(entries: seq<ArtworkEntry>, assetOf: map<int, AssetRef>, formatIds: seq<nat>, writable: set<nat>) {
    && (forall e | e in entries :: e.imgId in assetOf)
    && (forall i, j | 0 <= i < j < |entries| :: entries[i].imgId != entries[j].imgId)
    && (forall e, d | e in entries && d in entries && assetOf[e.imgId] == assetOf[d.imgId] :: e.formats == d.formats)
    && (forall i, j | 0 <= i < j < |formatIds| :: formatIds[i] != formatIds[j])
    && (forall e, f | e in entries && f in e.formats :: f in formatIds && (e.formats[f].Encoded? ==> f in writable))
  }

  lemma OnceMore(log: Log, r: Record)
    requires OncePerAsset(log) && forall k | 0 <= k < |log| :: log[k].asset != r.asset || log[k].f != r.f
    ensures OncePerAsset(log + [r])
  {
  }

  lemma PlacedLast(log: Log, asset: AssetRef, f: nat, p: FormatPayload, location: IthmbLocation)
    requires log != [] && p.Encoded?
    requires var r := log[|log| - 1];
             r.asset == asset && r.f == f && r.data == p.data && location == IthmbLocation(IthmbFilename(f, r.index), r.offset)
    ensures Placed(log, asset, f, p, location)
  {
  }

  lemma PassedThrough(log: Log, asset: AssetRef, f: nat, p: FormatPayload, location: IthmbLocation)
    requires p.Passthrough? && location == IthmbLocation(p.filename, p.offset)
    ensures Placed(log, asset, f, p, location)
  {
  }

  lemma KeepPlaced(log: Log, more: Log, asset: AssetRef, formats: map<nat, FormatPayload>, locations: Locations)
    requires log <= more && forall f | f in locations :: f in formats && Placed(log, asset, f, formats[f], locations[f])
    ensures forall f | f in locations :: Placed(more, asset, f, formats[f], locations[f])
  {
    hide Placed;
    forall f | f in locations ensures Placed(more, asset, f, formats[f], locations[f]) {
      PlacedGrows(log, more, asset, f, formats[f], locations[f]);
    }
  }

  lemma StoredClosed(s: Shards)
    requires s.Stored()
    ensures s.(open := {}).Stored()
  {
    hide Content;
    hide IthmbFilename;
    hide Aligned;
    var t := s.(open := {});
    assert forall f, i :: t.Wrote(f, i) <==> s.Wrote(f, i);
  }

  lemma BudgetedClosed(s: Shards)
    requires s.Contiguous() && s.Budgeted()
    ensures s.(open := {}).Contiguous() && s.(open := {}).Budgeted()
  {
    hide Content;
    hide IthmbFilename;
    hide Total;
    hide HasFrame;
    var t := s.(open := {});
    assert forall f, i :: t.Wrote(f, i) <==> s.Wrote(f, i);
    assert forall f :: t.AllFit(f) <==> s.AllFit(f);
  }

  lemma ValidParts(s: Shards)
    requires s.Valid()
    ensures s.Stored() && s.Contiguous() && s.Budgeted()
    ensures s.(open := {}).Stored() && s.(open := {}).Contiguous() && s.(open := {}).Budgeted()
  {
    hide Shards.Stored;
    hide Shards.Cursored;
    hide Shards.Contiguous;
    hide Shards.Budgeted;
    StoredClosed(s);
    BudgetedClosed(s);
  }

  /** Files that are not temporaries are the same in both. */
  ghost predicate SameFinals(before: Disk, after: Disk) {
    forall name :: (Final(name) in after <==> Final(name) in before)
                   && (Final(name) in before ==> after[Final(name)] == before[Final(name)])
  }

  /** The writer is ready to append `size` bytes for `f`: in the shard it was filling, or in a
      new one because there was none or the frame did not fit. */
  ghost predicate Ready(before: Shards, ready: Shards, f: nat, size: nat, serial: nat) {
    && before.Valid() && f in before.cursors && f in ready.open && f in ready.cursors
    && ready.Stored() && ready.Cursored() && ready.Contiguous()
    && (if ready == before then
          ready.cursors[f].offset == 0 || ready.cursors[f].offset + size <= ITHMB_MAX_SIZE_BYTES
        else
          && var index := ready.cursors[f].index;
          && index > before.cursors[f].index && ready == Opened(before, f, index, serial) && Temp(serial) !in before.disk
          && (f !in before.open || before.cursors[f].offset + size > ITHMB_MAX_SIZE_BYTES))
  }

  lemma StartBelowCursor(s: Shards, f: nat)
    requires s.Stored() && s.Cursored() && f in s.cursors
    ensures s.StartOf(f) <= s.cursors[f].index
  {
    if f in s.open {
      assert s.Wrote(f, s.cursors[f].index);
    }
  }

  lemma NothingWritten(s: Shards)
    requires s.temps == map[] && s.open == {} && s.log == []
    requires forall f | f in s.cursors :: s.cursors[f] == Cursor(s.StartOf(f), 0)
    ensures s.Valid()
  {
    hide Content;
    hide Total;
  }

  lemma ReadyTemp(before: Shards, ready: Shards, f: nat, size: nat, serial: nat)
    requires Ready(before, ready, f, size, serial)
    ensures f in ready.cursors && (f, ready.cursors[f].index) in ready.temps
    ensures var temp := ready.temps[(f, ready.cursors[f].index)]; temp.Temp? && temp in ready.disk
  {
    assert ready.Wrote(f, ready.cursors[f].index);
  }

  lemma AppendValid(before: Shards, ready: Shards, r: Record, serial: nat)
    requires Ready(before, ready, r.f, |r.data|, serial)
    requires r.index == ready.cursors[r.f].index && r.offset == ready.cursors[r.f].offset
    requires (r.f, r.index) in ready.temps && ready.temps[(r.f, r.index)] in ready.disk
    ensures Append(ready, r).Valid()
  {
    hide Shards.Stored;
    hide Shards.Contiguous;
    hide Shards.Budgeted;
    AppendStored(ready, r);
    AppendCursored(ready, r);
    AppendContiguous(ready, r);
    if ready == before {
      AppendBudgeted(before, r);
    } else {
      RolledBudgeted(before, r, serial);
    }
  }
}
