/** The whole of an artwork rewrite: what the new database says, the new shards hold. */
module ArtworkRewrite {
  import opened Outcomes
  import opened Bytes
  import opened ArtworkTypes
  import opened ArtworkDbFormat
  import opened ArtworkDbReader
  import opened ArtworkDbContents
  import opened IthmbPlanner
  import opened IthmbPaths
  import opened IthmbShards
  import opened IthmbWriter
  import opened ArtworkCommit
  import ArtworkDbWriter

  /** `open(path)`, `seek(offset)`, `read(size)`; None when the file is not there. */
  function ReadFrame(disk: Disk, filename: string, offset: nat, size: nat): Option<Bytes> {
    if Final(filename) !in disk then None
    else
      var data := disk[Final(filename)];
      Some(if offset > |data| then [] else data[offset..if offset + size <= |data| then offset + size else |data|])
  }

  lemma ReadFrameAt(disk: Disk, filename: string, offset: nat, data: Bytes)
    requires Final(filename) in disk && At(disk[Final(filename)], offset, data)
    ensures ReadFrame(disk, filename, offset, |data|) == Some(data)
  {
  }

  /** A finished rewrite that has not been committed. */
  datatype Rewrite = Rewrite(
    shards: Shards,
    source: Source,
    assetOf: map<int, AssetRef>,
    database: FileKey,
    renames: seq<Rename>,
    keys: seq<(nat, nat)>
  )

  /** The entries' frames are in the shards, the database is in its temporary, and the renames
      cover both. */
  ghost predicate Prepared(w: Rewrite) {
    && w.shards.Stored() && w.source.Fits()
    && (forall i, j | 0 <= i < j < |w.source.entries| :: w.source.entries[i].imgId != w.source.entries[j].imgId)
    && (forall e | e in w.source.entries ::
          && e.imgId in w.assetOf && e.imgId in w.source.locations
          && EntryPlaced(w.shards.log, w.assetOf[e.imgId], e.formats, w.source.locations[e.imgId]))
    && w.database.Temp? && w.database in w.shards.disk && w.database !in w.shards.temps.Values
    && w.shards.disk[w.database] == w.source.Database()
    && IsRenameList(w.shards.temps, w.database, w.renames, w.keys)
  }

  ghost function Committed(w: Rewrite): Disk {
    After(w.shards.disk, w.renames)
  }

  /** What reading the committed ArtworkDB back sees: the files of the committed device. */
  ghost function DeviceEnv(disk: Disk, utf8: Bytes -> string): Env {
    Env(name => Final(name) in disk, utf8)
  }

  /** A frame that a database can describe. */
  predicate Describable(p: FormatPayload) {
    && p.size > 0 && p.width > 0 && p.height > 0 && p.hpad >= 0 && p.vpad >= 0
    && (p.Encoded? ==> p.size == |p.data|)
    && (p.Passthrough? ==> p.offset >= 0 && IsBase(p.filename) && p.filename[|p.filename| - 1] != '\0')
  }

  /** The file a frame is left in is there and is not one the commit replaces. */
  ghost predicate LeftAlone(w: Rewrite, p: FormatPayload) {
    p.Passthrough? ==> Final(p.filename) in w.shards.disk && !IsTarget(w.renames, p.filename)
  }

  /** The bytes a frame must read back as: those encoded for it, or those it had before. */
  ghost function Intended(w: Rewrite, p: FormatPayload): Option<Bytes>
    requires Describable(p)
  {
    match p
    case Encoded(data, _, _, _, _, _) => Some(data)
    case Passthrough(filename, offset, size, _, _, _, _) => ReadFrame(w.shards.disk, filename, offset, size)
  }

  lemma CommittedFiles(w: Rewrite)
    requires Prepared(w)
    ensures var d := Committed(w);
      && Final(ARTWORK_DB) in d && d[Final(ARTWORK_DB)] == w.source.Database()
      && (forall f: nat, i: nat | w.shards.Wrote(f, i) ::
            Final(IthmbFilename(f, i)) in d && d[Final(IthmbFilename(f, i))] == Content(w.shards.log, f, i))
      && (forall name | !IsTarget(w.renames, name) ::
            (Final(name) in d <==> Final(name) in w.shards.disk)
            && (Final(name) in d ==> d[Final(name)] == w.shards.disk[Final(name)]))
  {
    hide Content;
    hide IthmbFilename;
    hide After;
    hide EntryPlaced;
    hide Source.Fits;
    hide Aligned;
    assert w.renames[..|w.renames|] == w.renames;
    DatabaseLast(w.shards, w.database, w.renames, w.keys, |w.renames|);
    RenamesReady(w.shards, w.database, w.renames, w.keys);
    AfterSpec(w.shards.disk, w.renames);
  }

  /** One frame: its location names a file that is there, and holds the intended bytes. */
  lemma FrameReads(w: Rewrite, asset: AssetRef, f: nat, p: FormatPayload, location: IthmbLocation)
    requires Prepared(w) && Placed(w.shards.log, asset, f, p, location)
    requires Describable(p) && LeftAlone(w, p)
    ensures location.offset >= 0 && StoredName(f, location.filename) == location.filename
    ensures location.filename != "" && location.filename[|location.filename| - 1] != '\0'
    ensures Final(location.filename) in Committed(w)
    ensures ReadFrame(Committed(w), location.filename, location.offset, p.size) == Intended(w, p)
  {
    hide Prepared;
    hide Content;
    hide Committed;
    hide StoredName;
    hide ReadFrame;
    match p {
      case Encoded(data, _, _, _, _, _) =>
        var k :| 0 <= k < |w.shards.log| && w.shards.log[k].asset == asset && w.shards.log[k].f == f && w.shards.log[k].data == data
          && location == IthmbLocation(IthmbFilename(f, w.shards.log[k].index), w.shards.log[k].offset);
        WrittenReads(w, k);
      case Passthrough(filename, offset, size, _, _, _, _) =>
        KeptReads(w, f, filename, offset, size);
    }
  }

  /** A frame that was written. */
  lemma WrittenReads(w: Rewrite, k: nat)
    requires Prepared(w) && k < |w.shards.log|
    ensures var r := w.shards.log[k];
      var name := IthmbFilename(r.f, r.index);
      && StoredName(r.f, name) == name && name != "" && name[|name| - 1] != '\0' && Final(name) in Committed(w)
      && ReadFrame(Committed(w), name, r.offset, |r.data|) == Some(r.data)
  {
    hide EntryPlaced;
    hide Source.Fits;
    hide Normalize;
    hide IthmbFilename;
    hide Content;
    hide Committed;
    hide IsRenameList;
    hide ReadFrame;
    hide At;
    var r := w.shards.log[k];
    CommittedFiles(w);
    assert w.shards.Wrote(r.f, r.index);
    NormalizeShard(r.f, r.f, r.index);
    ShardEnd(r.f, r.index);
    FrameInShard(w.shards.log, k);
    ReadFrameAt(Committed(w), IthmbFilename(r.f, r.index), r.offset, r.data);
  }

  /** A frame that was left where it is. */
  lemma KeptReads(w: Rewrite, f: nat, filename: string, offset: nat, size: nat)
    requires Prepared(w) && IsBase(filename) && Final(filename) in w.shards.disk && !IsTarget(w.renames, filename)
    ensures StoredName(f, filename) == filename && Final(filename) in Committed(w)
    ensures ReadFrame(Committed(w), filename, offset, size) == ReadFrame(w.shards.disk, filename, offset, size)
  {
    hide Prepared;
    hide Normalize;
    hide Content;
    hide Committed;
    hide IthmbFilename;
    hide IsTarget;
    CommittedFiles(w);
    BaseIsNormal(f, filename);
  }

  lemma ShardEnd(f: nat, index: nat)
    ensures var name := IthmbFilename(f, index); name != "" && name[|name| - 1] == 'b'
  {
  }

  lemma AllReusable(w: Rewrite, e: ArtworkEntry, utf8: Bytes -> string)
    requires Prepared(w) && e in w.source.entries && e.formats != map[]
    requires forall f | f in e.formats :: Describable(e.formats[f]) && LeftAlone(w, e.formats[f])
    ensures Reusable(DeviceEnv(Committed(w), utf8), e, w.source.locations[e.imgId])
  {
    hide After;
    hide Content;
    hide Placed;
    hide Source.Fits;
    hide IthmbFilename;
    hide Normalize;
    hide LeftAlone;
    hide Shards.Stored;
    hide IsRenameList;
    hide StoredName;
    var env, locations := DeviceEnv(Committed(w), utf8), w.source.locations[e.imgId];
    forall f | f in e.formats ensures FrameReusable(env, f, e.formats[f], locations) {
      FrameReads(w, w.assetOf[e.imgId], f, e.formats[f], locations[f]);
      StoredIsNormal(f, locations[f].filename);
    }
  }

  lemma StoredIsNormal(f: nat, filename: string)
    requires StoredName(f, filename) == filename
    ensures Normalize(f, filename) == filename
  {
    hide Normalize;
    NormalizeOnce(f, filename);
    NormalizeBase(f, Normalize(f, filename));
    BaseIsNormal(f, filename);
  }

  /** The reference that the database holds for a frame reads back as intended. */
  lemma RefReads(w: Rewrite, e: ArtworkEntry, f: nat)
    requires Prepared(w) && e in w.source.entries && f in e.formats
    requires Describable(e.formats[f]) && LeftAlone(w, e.formats[f])
    requires f in w.source.locations[e.imgId]
    ensures var ref, p := RefOf(f, e.formats[f], w.source.locations[e.imgId][f]), e.formats[f];
      && (ref.size, ref.width, ref.height, ref.hpad, ref.vpad) == (p.size, p.width, p.height, p.hpad, p.vpad)
      && ReadFrame(Committed(w), ref.filename, ref.offset, ref.size) == Intended(w, p)
  {
    hide After;
    hide Placed;
    hide Source.Fits;
    hide LeftAlone;
    hide Intended;
    hide StoredName;
    hide ReadFrame;
    hide Shards.Stored;
    hide IsRenameList;
    FrameReads(w, w.assetOf[e.imgId], f, e.formats[f], w.source.locations[e.imgId][f]);
  }

  /** The end-to-end property. After the commit, reading the new ArtworkDB gives each entry its
      track, and for each of its formats a reference whose bytes on the device are the ones
      encoded for it, or, for a frame left in place, the ones it had before the rewrite. */
  lemma RewriteReadsBack(w: Rewrite, e: ArtworkEntry, f: nat, utf8: Bytes -> string)
    requires Prepared(w) && e in w.source.entries && f in e.formats
    requires forall g | g in e.formats :: Describable(e.formats[g]) && LeftAlone(w, e.formats[g])
    ensures var d := Committed(w);
      && Final(ARTWORK_DB) in d
      && var read := ReadDatabase(DeviceEnv(d, utf8), d[Final(ARTWORK_DB)]);
      && read.Some? && e.imgId in EntryMap(read.value)
      && var got := EntryMap(read.value)[e.imgId];
      && got.songId == e.dbTrackId && got.srcImgSize == e.srcImgSize && got.formats.Keys == e.formats.Keys
      && var ref, p := got.formats[f], e.formats[f];
      && (ref.size, ref.width, ref.height, ref.hpad, ref.vpad) == (p.size, p.width, p.height, p.hpad, p.vpad)
      && ReadFrame(d, ref.filename, ref.offset, ref.size) == Intended(w, p)
  {
    hide After;
    hide EntryPlaced;
    hide Source.Fits;
    hide Reusable;
    hide ReadDatabase;
    hide EntryMap;
    hide LeftAlone;
    hide Intended;
    hide RefOf;
    hide ReadFrame;
    hide Shards.Stored;
    hide IsRenameList;
    hide Describable;
    CommittedFiles(w);
    AllReusable(w, e, utf8);
    EntryReadBack(DeviceEnv(Committed(w), utf8), w.source, e);
    RefReads(w, e, f);
  }

  /** A frame left in place keeps its file when its name was protected for its own format and
      is not a shard name of any other. */
  lemma ProtectedLeftAlone(w: Rewrite, f: nat, p: FormatPayload)
    requires Prepared(w) && p.Passthrough? && p.filename != ARTWORK_DB
    requires p.filename in w.shards.ProtectedOf(f)
    requires forall g: nat, i: nat | g != f :: p.filename != IthmbFilename(g, i)
    ensures !IsTarget(w.renames, p.filename)
  {
    hide IthmbFilename;
    hide Content;
    hide EntryPlaced;
    hide Source.Fits;
    hide Aligned;
    UntouchedIff(w.shards, w.database, w.renames, w.keys, p.filename);
    forall g: nat, i: nat | w.shards.Wrote(g, i) ensures IthmbFilename(g, i) != p.filename {
      if g == f { assert IthmbFilename(g, i) !in w.shards.ProtectedOf(f); }
    }
  }

  /** The frames in the log are those of the entries. */
  ghost predicate FramesOf(w: Rewrite) {
    forall k | 0 <= k < |w.shards.log| :: FromEntries(w.shards.log[k], w.source.entries, w.assetOf)
  }

  /** Some entry has new bytes for the format. */
  ghost predicate Writes(entries: seq<ArtworkEntry>, g: nat) {
    exists e :: e in entries && g in e.formats && e.formats[g].Encoded?
  }

  lemma WritesFrame(w: Rewrite, g: nat)
    requires Prepared(w) && FramesOf(w)
    ensures Writes(w.source.entries, g) <==> exists k :: 0 <= k < |w.shards.log| && w.shards.log[k].f == g
  {
    hide Source.Fits;
    hide Shards.Stored;
    hide IsRenameList;
    if Writes(w.source.entries, g) {
      var e :| e in w.source.entries && g in e.formats && e.formats[g].Encoded?;
      assert Placed(w.shards.log, w.assetOf[e.imgId], g, e.formats[g], w.source.locations[e.imgId][g]);
    }
    if k :| 0 <= k < |w.shards.log| && w.shards.log[k].f == g {
      var e :| e in w.source.entries && e.imgId in w.assetOf && RecordOf(w.shards.log[k], w.assetOf[e.imgId], e.formats);
    }
  }

  /** The commit replaces the file named like a shard exactly when that shard was written. */
  lemma ShardReplacedIff(w: Rewrite, g: nat, index: nat)
    requires Prepared(w)
    ensures IsTarget(w.renames, IthmbFilename(g, index)) <==> w.shards.Wrote(g, index)
  {
    hide IthmbFilename;
    hide EntryPlaced;
    hide Source.Fits;
    hide Shards.Stored;
    hide IsRenameList;
    hide IsTarget;
    UntouchedIff(w.shards, w.database, w.renames, w.keys, IthmbFilename(g, index));
    NotAShard(g, index);
    if f: nat, i: nat :| w.shards.Wrote(f, i) && IthmbFilename(f, i) == IthmbFilename(g, index) {
      FilenameInjective(f, i, g, index);
    }
  }

  /** The first shard of a format is written exactly when some frame of the format is, under a name
      that is not protected. */
  lemma FirstWroteIff(s: Shards, g: nat)
    requires s.Stored() && s.Contiguous() && s.Budgeted()
    ensures s.Wrote(g, s.StartOf(g) + 1)
            <==> IthmbFilename(g, s.StartOf(g) + 1) !in s.ProtectedOf(g) && exists k :: 0 <= k < |s.log| && s.log[k].f == g
  {
    hide IthmbFilename;
    hide Content;
    hide Total;
    hide Aligned;
    if s.Wrote(g, s.StartOf(g) + 1) {
      assert HasFrame(s.log, g, s.StartOf(g) + 1);
    }
    if k :| 0 <= k < |s.log| && s.log[k].f == g {
      assert s.Wrote(g, s.log[k].index);
    }
  }

  lemma OtherFileKept(w: Rewrite, name: string, offset: nat, size: nat)
    requires Prepared(w) && !IsTarget(w.renames, name)
    ensures ReadFrame(Committed(w), name, offset, size) == ReadFrame(w.shards.disk, name, offset, size)
  {
    hide Prepared;
    hide Content;
    hide Committed;
    hide IthmbFilename;
    hide IsTarget;
    CommittedFiles(w);
  }

  /** Protection is kept per format. The commit replaces the file named like the first shard of a
      format `g` exactly when some entry has new bytes for `g` and no frame of `g` itself stays in that
      file: a frame of another format that was to stay there loses its file then, and only then. */
  lemma ForeignNameReplacedIff(w: Rewrite, g: nat)
    requires Prepared(w) && w.shards.Contiguous() && w.shards.Budgeted() && FramesOf(w)
    ensures var name := IthmbFilename(g, w.shards.StartOf(g) + 1);
      && (IsTarget(w.renames, name) <==> Writes(w.source.entries, g) && name !in w.shards.ProtectedOf(g))
      && (IsTarget(w.renames, name) ==>
            Final(name) in Committed(w) && Committed(w)[Final(name)] == Content(w.shards.log, g, w.shards.StartOf(g) + 1))
      && (!IsTarget(w.renames, name) ==>
            forall offset: nat, size: nat ::
              ReadFrame(Committed(w), name, offset, size) == ReadFrame(w.shards.disk, name, offset, size))
  {
    hide IthmbFilename;
    hide Content;
    hide Committed;
    hide EntryPlaced;
    hide Source.Fits;
    hide Shards.Stored;
    hide Shards.Contiguous;
    hide Shards.Budgeted;
    hide IsRenameList;
    hide IsTarget;
    hide FramesOf;
    hide Writes;
    hide ReadFrame;
    var index := w.shards.StartOf(g) + 1;
    var name := IthmbFilename(g, index);
    WritesFrame(w, g);
    FirstWroteIff(w.shards, g);
    ShardReplacedIff(w, g, index);
    CommittedFiles(w);
    if !IsTarget(w.renames, name) {
      forall offset: nat, size: nat
        ensures ReadFrame(Committed(w), name, offset, size) == ReadFrame(w.shards.disk, name, offset, size)
      {
        OtherFileKept(w, name, offset, size);
      }
    }
  }

  /** The second half of `write_artworkdb`: shards, then the database, then the pending renames.
      None when the database cannot be written, because a value does not fit its field. */
  method PrepareRewrite(disk: Disk, serial: nat, entries: seq<ArtworkEntry>, assetOf: map<int, AssetRef>, formatIds: seq<nat>,
                        writable: set<nat>, start: map<nat, nat>, protected: map<nat, set<string>>,
                        imageSizes: map<nat, int>, nextId: int, reference: Bytes)
    returns (r: Option<(Disk, seq<Rename>)>, ghost w: Rewrite)
    requires forall n: nat | Temp(n) in disk :: n < serial
    requires Consistent(entries, assetOf, formatIds, writable)
    ensures w.source == Source(entries, w.source.locations, formatIds, imageSizes, nextId, reference) && w.assetOf == assetOf
    ensures forall e | e in entries ::
      && e.imgId in assetOf && e.imgId in w.source.locations
      && EntryPlaced(w.shards.log, assetOf[e.imgId], e.formats, w.source.locations[e.imgId])
    ensures r.Some? <==> w.source.Fits()
    ensures r.Some? ==>
      && r.value == (w.shards.disk, w.renames) && Prepared(w)
      && w.shards.Contiguous() && w.shards.Budgeted() && OncePerAsset(w.shards.log)
      && w.shards.start == start && w.shards.protected == protected
      && SameFinals(disk, w.shards.disk)
      && forall k | 0 <= k < |w.shards.log| :: FromEntries(w.shards.log[k], entries, assetOf)
  {
    hide Consistent;
    hide EntryPlaced;
    hide FromEntries;
    hide SameFinals;
    hide OncePerAsset;
    hide IsRenameList;
    hide Shards.Stored;
    hide Shards.Contiguous;
    hide Shards.Budgeted;
    hide Source.Fits;
    hide Prepared;
    var writer := new ShardWriter(disk, writable, start, protected, serial);
    var locations := writer.WriteEntries(entries, assetOf, formatIds);
    var source := Source(entries, locations, formatIds, imageSizes, nextId, reference);
    var built := ArtworkDbWriter.BuildArtworkDb(source);
    ghost var shards := writer.View();
    var database := Temp(writer.nextSerial);
    var renames, keys := CollectRenames(writer.temps, database);
    ConsistentIds(entries, assetOf, formatIds, writable);
    if built.Failure? {
      return None, Rewrite(shards, source, assetOf, database, renames, keys);
    }
    DatabaseAdded(shards, database, built.value);
    var finished := writer.disk[database := built.value];
    SameFinalsTwice(disk, shards.disk, finished);
    w := Rewrite(shards.(disk := finished), source, assetOf, database, renames, keys);
    IsPrepared(w);
    r := Some((finished, renames));
  }

  lemma IsPrepared(w: Rewrite)
    requires w.shards.Stored() && w.source.Fits()
    requires forall i, j | 0 <= i < j < |w.source.entries| :: w.source.entries[i].imgId != w.source.entries[j].imgId
    requires forall e | e in w.source.entries ::
      e.imgId in w.assetOf && e.imgId in w.source.locations
      && EntryPlaced(w.shards.log, w.assetOf[e.imgId], e.formats, w.source.locations[e.imgId])
    requires w.database.Temp? && w.database in w.shards.disk && w.database !in w.shards.temps.Values
    requires w.shards.disk[w.database] == w.source.Database()
    requires IsRenameList(w.shards.temps, w.database, w.renames, w.keys)
    ensures Prepared(w)
  {
    hide EntryPlaced;
    hide Source.Fits;
    hide IsRenameList;
    hide Shards.Stored;
  }

  lemma ConsistentIds(entries: seq<ArtworkEntry>, assetOf: map<int, AssetRef>, formatIds: seq<nat>, writable: set<nat>)
    requires Consistent(entries, assetOf, formatIds, writable)
    ensures forall i, j | 0 <= i < j < |entries| :: entries[i].imgId != entries[j].imgId
    ensures forall e | e in entries :: e.imgId in assetOf
  {
  }

  /** Writing the database's temporary changes neither a shard nor a finished file. */
  lemma DatabaseAdded(s: Shards, database: FileKey, data: Bytes)
    requires s.Stored() && s.Contiguous() && s.Budgeted() && database.Temp? && database !in s.disk
    ensures var t := s.(disk := s.disk[database := data]);
            t.Stored() && t.Contiguous() && t.Budgeted() && SameFinals(s.disk, t.disk) && database !in t.temps.Values
  {
    hide Content;
    hide IthmbFilename;
    hide Aligned;
    hide Total;
    var t := s.(disk := s.disk[database := data]);
    hide HasFrame;
    assert forall f, i :: t.Wrote(f, i) <==> s.Wrote(f, i);
    assert forall f :: t.AllFit(f) <==> s.AllFit(f);
    forall v | v in s.temps.Values ensures v in s.disk {
      var k: (nat, nat) :| k in s.temps && s.temps[k] == v;
      assert s.Wrote(k.0, k.1);
    }
  }
}
