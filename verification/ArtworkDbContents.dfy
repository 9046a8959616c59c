/** What a rewritten ArtworkDB says about each entry, and where an accepted one may lie. */
module ArtworkDbContents {
  import opened ArtworkTypes
  import opened ArtworkDbFormat
  import opened ArtworkDbReader
  import opened ArtworkDbRoundTrip
  import IthmbPaths

  lemma {:induction false} FormatMapConcat(a: seq<Frame>, b: seq<Frame>)
    ensures FormatMap(a + b) == FormatMap(a) + FormatMap(b)
  {
    if b == [] {
      assert a + b == a;
    } else {
      assert (a + b)[..|a + b| - 1] == a + b[..|b| - 1];
      FormatMapConcat(a, b[..|b| - 1]);
    }
  }

  lemma {:induction false} FramesByFormat(env: Env, ids: seq<nat>, entry: ArtworkEntry, locations: Locations)
    requires forall f | f in ids :: f in entry.formats && MhiiChildFits(f, entry, locations)
    requires forall i, j | 0 <= i < j < |ids| :: ids[i] != ids[j]
    ensures var m := FormatMap(ExpectedFrames(env, ids, entry, locations));
      && (forall f | f in m :: f in ids && ExpectedChild(env, f, entry, locations) != [])
      && (forall f | f in ids && ExpectedChild(env, f, entry, locations) != [] ::
            f in m && m[f] == ExpectedChild(env, f, entry, locations)[0].1)
  {
    hide MhiiChildFits;
    hide ExpectedChild;
    hide FormatMap;
    if ids == [] {
      FormatMapEmpty([]);
    } else {
      var f := ids[0];
      assert f in ids;
      FramesByFormat(env, ids[1..], entry, locations);
      var first, rest := ExpectedChild(env, f, entry, locations), ExpectedFrames(env, ids[1..], entry, locations);
      FormatMapConcat(first, rest);
      SingleFrame(env, f, entry, locations);
      assert ids == [f] + ids[1..];
    }
  }

  lemma SingleFrame(env: Env, formatId: nat, entry: ArtworkEntry, locations: Locations)
    requires formatId in entry.formats && MhiiChildFits(formatId, entry, locations)
    ensures var first := ExpectedChild(env, formatId, entry, locations);
            FormatMap(first) == if first == [] then map[] else map[formatId := first[0].1]
  {
    hide IthmbPaths.RecoveredName;
    hide IthmbPaths.Normalize;
    var first := ExpectedChild(env, formatId, entry, locations);
    if first != [] {
      assert first[..0] == [];
    }
  }

  /** Every frame of `entry` can be used again: it has bytes and visible geometry, its shard
      is in the directory, and the shard's name does not end in NUL. */
  ghost predicate Reusable(env: Env, entry: ArtworkEntry, locations: Locations) {
    && entry.formats != map[]
    && forall f | f in entry.formats :: FrameReusable(env, f, entry.formats[f], locations)
  }

  predicate FrameReusable(env: Env, formatId: nat, p: FormatPayload, locations: Locations) {
    && formatId in locations
    && p.size > 0 && p.width > 0 && p.height > 0 && p.hpad >= 0 && p.vpad >= 0
    && var name := IthmbPaths.StoredName(formatId, locations[formatId].filename);
       name != "" && name[|name| - 1] != '\0' && env.present(IthmbPaths.Normalize(formatId, name))
  }

  /** The reference that stands for payload `p` stored at `location`; every number in a
      written database is a natural number already. */
  function RefOf(formatId: nat, p: FormatPayload, location: IthmbLocation): ExistingFormatRef {
    ExistingFormatRef(IthmbPaths.StoredName(formatId, location.filename), Max(0, location.offset), Max(0, p.size),
                      Max(0, p.width), Max(0, p.height), Max(0, p.hpad), Max(0, p.vpad))
  }

  lemma ReusableChild(env: Env, formatId: nat, entry: ArtworkEntry, locations: Locations)
    requires formatId in entry.formats && MhiiChildFits(formatId, entry, locations)
    requires FrameReusable(env, formatId, entry.formats[formatId], locations)
    ensures ExpectedChild(env, formatId, entry, locations) ==
            [(formatId, RefOf(formatId, entry.formats[formatId], locations[formatId]))]
  {
    hide IthmbPaths.RecoveredName;
    hide IthmbPaths.Normalize;
    IthmbPaths.NameRecovered(formatId, locations[formatId].filename);
  }

  ghost function RefsOf(entry: ArtworkEntry, locations: Locations): map<nat, ExistingFormatRef>
    requires entry.formats.Keys <= locations.Keys
  {
    map f | f in entry.formats :: RefOf(f, entry.formats[f], locations[f])
  }

  lemma ReusableFrames(env: Env, entry: ArtworkEntry, locations: Locations)
    requires MhiiFits(entry, locations) && Reusable(env, entry, locations)
    ensures entry.formats.Keys <= locations.Keys
    ensures forall f | f in entry.formats ::
              MhiiChildFits(f, entry, locations)
              && ExpectedChild(env, f, entry, locations) == [(f, RefOf(f, entry.formats[f], locations[f]))]
  {
    hide MhiiChildFits;
    hide ExpectedChild;
    hide RefOf;
    hide Mhii;
    forall f | f in entry.formats
      ensures f in locations && ExpectedChild(env, f, entry, locations) == [(f, RefOf(f, entry.formats[f], locations[f]))]
    {
      ReusableChild(env, f, entry, locations);
    }
  }

  lemma ReusableEntry(env: Env, entry: ArtworkEntry, locations: Locations)
    requires MhiiFits(entry, locations) && Reusable(env, entry, locations)
    ensures entry.formats.Keys <= locations.Keys
    ensures ExpectedEntry(env, entry, locations) ==
            [ExistingEntry(entry.imgId, entry.dbTrackId, entry.srcImgSize, RefsOf(entry, locations))]
  {
    hide MhiiChildFits;
    hide ExpectedChild;
    hide ExpectedFrames;
    hide FrameReusable;
    hide FormatMap;
    hide Mhii;
    hide SortedOf;
    hide RefOf;
    var ids := SortedOf(entry.formats.Keys);
    SortedOfSpec(entry.formats.Keys);
    ReusableFrames(env, entry, locations);
    var frames := ExpectedFrames(env, ids, entry, locations);
    FramesByFormat(env, ids, entry, locations);
    assert FormatMap(frames) == RefsOf(entry, locations);
    FormatMapEmpty(frames);
  }

  lemma {:induction false} EntriesById(env: Env, entries: seq<ArtworkEntry>, locations: map<int, Locations>, e: ArtworkEntry)
    requires forall x | x in entries :: x.imgId in locations && MhiiFits(x, locations[x.imgId])
    requires forall i, j | 0 <= i < j < |entries| :: entries[i].imgId != entries[j].imgId
    requires e in entries && Reusable(env, e, locations[e.imgId])
    ensures var m := EntryMap(ExpectedEntries(env, entries, locations));
            e.imgId in m && [m[e.imgId]] == ExpectedEntry(env, e, locations[e.imgId])
    decreases |entries|
  {
    hide MhiiFits;
    hide Reusable;
    hide ExpectedEntry;
    hide EntryMap;
    var first := entries[0];
    var rest := entries[1..];
    assert first in entries;
    var a, b := ExpectedEntry(env, first, locations[first.imgId]), ExpectedEntries(env, rest, locations);
    EntryMapConcat(a, b);
    OwnId(env, first, locations[first.imgId]);
    if e == first {
      NotLater(env, rest, locations, e.imgId);
      ReusableEntry(env, e, locations[e.imgId]);
      SingleEntry(a);
    } else {
      assert e in rest;
      EntriesById(env, rest, locations, e);
    }
  }

  lemma SingleEntry(a: seq<ExistingEntry>)
    requires |a| == 1
    ensures EntryMap(a) == map[a[0].imgId := a[0]]
  {
    assert a[..0] == [];
  }

  lemma OwnId(env: Env, entry: ArtworkEntry, locations: Locations)
    requires MhiiFits(entry, locations)
    ensures var a := ExpectedEntry(env, entry, locations); |a| <= 1 && forall x | x in a :: x.imgId == entry.imgId
  {
    hide MhiiChildFits;
    hide ExpectedFrames;
    hide Mhii;
  }

  lemma {:induction false} NotLater(env: Env, entries: seq<ArtworkEntry>, locations: map<int, Locations>, id: int)
    requires forall x | x in entries :: x.imgId in locations && MhiiFits(x, locations[x.imgId]) && x.imgId != id
    ensures id !in EntryMap(ExpectedEntries(env, entries, locations))
    decreases |entries|
  {
    hide MhiiFits;
    hide ExpectedEntry;
    if entries != [] {
      var first := entries[0];
      assert first in entries;
      var a, b := ExpectedEntry(env, first, locations[first.imgId]), ExpectedEntries(env, entries[1..], locations);
      EntryMapConcat(a, b);
      OwnId(env, first, locations[first.imgId]);
      NotLater(env, entries[1..], locations, id);
      if a != [] { SingleEntry(a); }
    }
  }

  /** Reading back a written database gives every reusable entry its image id, track id, source
      size and, per format, exactly the location and geometry that were written. */
  lemma EntryReadBack(env: Env, source: Source, e: ArtworkEntry)
    requires source.Fits() && e in source.entries
    requires forall i, j | 0 <= i < j < |source.entries| :: source.entries[i].imgId != source.entries[j].imgId
    requires Reusable(env, e, source.locations[e.imgId])
    ensures var r := ReadDatabase(env, source.Database());
      && r.Some? && e.imgId in EntryMap(r.value) && e.formats.Keys <= source.locations[e.imgId].Keys
      && EntryMap(r.value)[e.imgId] ==
         ExistingEntry(e.imgId, e.dbTrackId, e.srcImgSize, RefsOf(e, source.locations[e.imgId]))
  {
    hide MhiiFits;
    hide Reusable;
    hide ReadDatabase;
    hide ExpectedEntry;
    hide ExpectedEntries;
    hide EntryMap;
    DatabaseRead(env, source);
    EntriesById(env, source.entries, source.locations, e);
    ReusableEntry(env, e, source.locations[e.imgId]);
  }

  /** An image is in the database that is read exactly when it was written. */
  lemma ExactlyWritten(env: Env, source: Source, id: nat)
    requires source.Fits()
    requires forall i, j | 0 <= i < j < |source.entries| :: source.entries[i].imgId != source.entries[j].imgId
    requires forall e | e in source.entries :: Reusable(env, e, source.locations[e.imgId])
    ensures var r := ReadDatabase(env, source.Database());
            r.Some? && (id in EntryMap(r.value) <==> exists e :: e in source.entries && e.imgId == id)
  {
    hide MhiiFits;
    hide Reusable;
    hide ReadDatabase;
    hide ExpectedEntry;
    hide ExpectedEntries;
    hide EntryMap;
    DatabaseRead(env, source);
    if e :| e in source.entries && e.imgId == id {
      EntryReadBack(env, source, e);
    } else {
      NotLater(env, source.entries, source.locations, id);
    }
  }
}
