/** `write_artworkdb` as a whole: from tracks, decisions and the device to a finished rewrite. */
module ArtworkUpdate {
  import opened Outcomes
  import opened Bytes
  import opened ArtworkTypes
  import opened ArtworkDbFormat
  import opened ArtworkDbReader
  import opened IthmbPlanner
  import opened IthmbPaths
  import opened IthmbShards
  import opened IthmbWriter
  import opened ArtworkCommit
  import opened ArtworkRewrite
  import opened ArtworkPayloads
  import opened ImageSizes
  import opened ArtworkEntries

  /** Everything a rewrite is asked to do. `decisions` are the values of `decisionOf`, in order. */
  datatype Request = Request(
    env: Surroundings,
    existing: seq<ExistingEntry>,
    tracks: seq<int>,
    decisionOf: map<int, Decision>,
    decisions: seq<Decision>,
    required: set<nat>,
    startId: int
  )

  /** The frames of one asset: preserved ones if it has any, otherwise new ones. */
  ghost predicate GalleryAt(q: Request, plan: Plan, asset: AssetRef, r: Option<Artwork>) {
    exists p :: IsPreserved(q.env, q.decisions, plan.rewrite, q.required, asset, p)
      && r == if p.Some? then p else NewArtwork(q.env, q.decisions, q.required, asset)
  }

  /** The payloads the plan was made for: those of the new assets, in some order. */
  ghost predicate IsListing(q: Request, order: seq<AssetRef>, payloads: seq<Payload>) {
    && |order| == |payloads|
    && (forall i, j | 0 <= i < j < |order| :: order[i] != order[j])
    && (forall a :: a in order <==> NewArtwork(q.env, q.decisions, q.required, a).Some?)
    && (forall i | 0 <= i < |order| :: NewArtwork(q.env, q.decisions, q.required, order[i]).Some?
          && payloads[i] == NewArtwork(q.env, q.decisions, q.required, order[i]).value.formats)
  }

  /** What a rewrite did with a request. */
  datatype Update = Update(order: seq<AssetRef>, payloads: seq<Payload>, plan: Plan, gallery: Gallery, rewrite: Rewrite) {
    ghost function LiveTracks(q: Request): seq<LiveTrack> {
      Live(q.tracks, q.decisionOf, gallery)
    }

    /** The plan is for the new frames, and the gallery follows the plan. */
    ghost predicate Planned(q: Request) {
      && IsListing(q, order, payloads)
      && IsPlan(q.existing, q.decisions, payloads, plan)
      && (forall a :: GalleryAt(q, plan, a, ArtworkOf(gallery, a)))
    }

    ghost predicate Answers(q: Request, disk: Disk) {
      Planned(q) && Written(q, disk)
    }

    /** Why a rewrite raised: nothing to write for, a new frame that no shard can take, or a value
        that does not fit its field of the database. */
    ghost predicate Refuses(q: Request) {
      || q.required == {}
      || (IsListing(q, order, payloads)
          && exists f :: Hopeless(q.existing, q.decisions, payloads, f)
                         && (FromExisting(q.decisions, q.existing) ==> TooLarge(payloads, f)))
      || (&& Planned(q)
          && Assembled(rewrite.source.entries, rewrite.assetOf, LiveTracks(q), gallery, q.startId)
          && !rewrite.source.Fits())
    }

    ghost predicate Written(q: Request, disk: Disk) {
      var w := rewrite;
      && Prepared(w) && w.shards.Contiguous() && w.shards.Budgeted() && OncePerAsset(w.shards.log)
      && Assembled(w.source.entries, w.assetOf, LiveTracks(q), gallery, q.startId)
      && w.source.nextId == q.startId + |w.source.entries|
      && w.source.formatIds == SortedOf(FormatsIn(w.source.entries))
      && AreObserved(w.source.entries, w.source.formatIds, w.source.imageSizes)
      && w.shards.start == plan.start && SameFinals(disk, w.shards.disk)
      && (forall f: nat :: w.shards.ProtectedOf(f) == ProtectedIn(w.source.entries, f))
      && (forall k | 0 <= k < |w.shards.log| :: FromEntries(w.shards.log[k], w.source.entries, w.assetOf))
    }
  }

  /** The assets of a gallery with their payloads, in some order. */
  method ListGallery(g: Gallery) returns (order: seq<AssetRef>, payloads: seq<Payload>)
    ensures |order| == |payloads|
    ensures forall i, j | 0 <= i < j < |order| :: order[i] != order[j]
    ensures forall a :: a in order <==> a in g
    ensures forall i | 0 <= i < |order| :: order[i] in g && payloads[i] == g[order[i]].formats
  {
    order, payloads := [], [];
    var todo := g.Keys;
    while todo != {}
      invariant todo <= g.Keys && |order| == |payloads|
      invariant forall i, j | 0 <= i < j < |order| :: order[i] != order[j]
      invariant forall a :: a in order <==> a in g && a !in todo
      invariant forall i | 0 <= i < |order| :: order[i] in g && payloads[i] == g[order[i]].formats
      decreases todo
    {
      var a :| a in todo;
      order, payloads := order + [a], payloads + [g[a].formats];
      todo := todo - {a};
    }
  }

  /** `write_artworkdb`; None where it raises. */
  method WriteArtworkDb(q: Request, disk: Disk, serial: nat, reference: Bytes)
    returns (r: Option<(Disk, seq<Rename>)>, ghost u: Update)
    requires forall n: nat | Temp(n) in disk :: n < serial
    ensures r.Some? ==> u.Answers(q, disk) && r.value == (u.rewrite.shards.disk, u.rewrite.renames)
    ensures r.Some? ==> u.rewrite.source.reference == reference && q.required != {}
    ensures r.None? ==> u.Refuses(q)
  {
    hide AreObserved;
    hide Prepared;
    hide IsPlan;
    hide Assembled;
    hide IthmbWriter.Consistent;
    hide SameFinals;
    hide FromEntries;
    hide Shards.Contiguous;
    hide Shards.Budgeted;
    hide OncePerAsset;
    hide NewArtwork;
    hide IsPreserved;
    hide TargetsOf;
    hide PassthroughFor;
    hide Live;
    hide IsListing;
    hide SortedOf;
    hide GalleryAt;
    hide EntryPlaced;
    hide Source.Fits;
    hide Hopeless;
    hide TooLarge;
    hide FromExisting;
    hide FormatsIn;
    hide WritableIn;
    hide ProtectedIn;
    if q.required == {} {
      return None, *;
    }
    var targets := CollectRewriteTargets(q.env, q.decisions, q.required);
    var converted := ConvertNewPcArt(q.env, q.decisions, targets, q.required);
    var order, payloads := ListGallery(converted);
    var plan := SelectRewritePlan(q.existing, q.decisions, payloads);
    ListingOf(q, converted, order, payloads);
    if plan.None? {
      ghost var f: nat :| Hopeless(q.existing, q.decisions, payloads, f);
      if FromExisting(q.decisions, q.existing) {
        HopelessIffTooLarge(q.existing, q.decisions, payloads, f);
      }
      u := *;
      return None, u.(order := order, payloads := payloads);
    }
    var preserved := LoadPreservedArt(q.env, q.decisions, targets, plan.value.rewrite, q.required);
    var gallery := converted + preserved;
    GalleryMerged(q, plan.value, converted, preserved);
    var entries, assetOf := AssembleEntries(q.tracks, q.decisionOf, gallery, q.startId);
    var all, writable, protected := CollectFormats(entries);
    AssembledConsistent(entries, assetOf, Live(q.tracks, q.decisionOf, gallery), gallery, q.startId);
    var formatIds := SortedKeys(all);
    var imageSizes := ObservedSizes(entries, formatIds);
    ghost var w: Rewrite;
    r, w := PrepareRewrite(disk, serial, entries, assetOf, formatIds, writable, plan.value.start, protected, imageSizes,
                           q.startId + |entries|, reference);
    u := Update(order, payloads, plan.value, gallery, w);
    if r.Some? {
      assert forall f: nat :: w.shards.ProtectedOf(f) == NamesOf(protected, f);
      assert u.Written(q, disk);
    }
  }

  lemma GalleryMerged(q: Request, plan: Plan, converted: Gallery, preserved: Gallery)
    requires forall a :: ArtworkOf(converted, a) == NewArtwork(q.env, q.decisions, q.required, a)
    requires forall a :: IsPreserved(q.env, q.decisions, plan.rewrite, q.required, a, ArtworkOf(preserved, a))
    ensures forall a :: GalleryAt(q, plan, a, ArtworkOf(converted + preserved, a))
  {
    hide NewArtwork;
    hide IsPreserved;
    forall a ensures GalleryAt(q, plan, a, ArtworkOf(converted + preserved, a)) {
      var p := ArtworkOf(preserved, a);
      assert IsPreserved(q.env, q.decisions, plan.rewrite, q.required, a, p);
    }
  }

  lemma ListingOf(q: Request, converted: Gallery, order: seq<AssetRef>, payloads: seq<Payload>)
    requires forall a :: ArtworkOf(converted, a) == NewArtwork(q.env, q.decisions, q.required, a)
    requires |order| == |payloads|
    requires forall i, j | 0 <= i < j < |order| :: order[i] != order[j]
    requires forall a :: a in order <==> a in converted
    requires forall i | 0 <= i < |order| :: order[i] in converted && payloads[i] == converted[order[i]].formats
    ensures IsListing(q, order, payloads)
  {
    hide NewArtwork;
    forall a ensures a in converted <==> NewArtwork(q.env, q.decisions, q.required, a).Some? {
      assert ArtworkOf(converted, a) == NewArtwork(q.env, q.decisions, q.required, a);
    }
    forall i | 0 <= i < |order| ensures payloads[i] == NewArtwork(q.env, q.decisions, q.required, order[i]).value.formats {
      assert ArtworkOf(converted, order[i]) == NewArtwork(q.env, q.decisions, q.required, order[i]);
    }
  }

  /** Every entry of the new database has a frame for every format the device requires. */
  lemma EveryEntryComplete(q: Request, disk: Disk, u: Update, e: ArtworkEntry)
    requires u.Answers(q, disk) && e in u.rewrite.source.entries
    ensures q.required <= e.formats.Keys
  {
    hide Prepared;
    hide IsPlan;
    hide IsPreserved;
    hide NewArtwork;
    hide Live;
    var i :| 0 <= i < |u.rewrite.source.entries| && u.rewrite.source.entries[i] == e;
    var asset := u.LiveTracks(q)[i].asset;
    assert GalleryAt(q, u.plan, asset, ArtworkOf(u.gallery, asset));
    GalleryComplete(q.env, q.decisions, u.plan.rewrite, q.required, asset, ArtworkOf(u.gallery, asset));
  }

  /** A track has an entry exactly when its decision keeps or makes artwork, whichever way, for an asset
      that has frames. */
  lemma TrackHasEntryIff(q: Request, disk: Disk, u: Update, t: int)
    requires u.Answers(q, disk)
    ensures (exists e :: e in u.rewrite.source.entries && e.dbTrackId == t)
            <==> t != 0 && t in q.tracks && t in q.decisionOf && Shows(q.decisionOf[t])
                 && q.decisionOf[t].asset.Some? && q.decisionOf[t].asset.value in u.gallery
  {
    hide Prepared;
    hide Update.Planned;
    hide Live;
    hide FromEntries;
    hide ProtectedIn;
    hide SortedOf;
    var entries, live := u.rewrite.source.entries, u.LiveTracks(q);
    if e :| e in entries && e.dbTrackId == t {
      var i :| 0 <= i < |entries| && entries[i] == e;
      assert live[i] in live;
      LiveExactly(q.tracks, q.decisionOf, u.gallery, t, live[i].asset);
    }
    if t in q.decisionOf && q.decisionOf[t].asset.Some? {
      var asset := q.decisionOf[t].asset.value;
      LiveExactly(q.tracks, q.decisionOf, u.gallery, t, asset);
      if LiveTrack(t, asset) in live {
        var i :| 0 <= i < |live| && live[i] == LiveTrack(t, asset);
        assert entries[i] in entries;
      }
    }
  }

  /** That entry has all frames of the decision's asset, and the size of the image they came from. */
  lemma EntryOfTrack(q: Request, disk: Disk, u: Update, e: ArtworkEntry)
    requires u.Answers(q, disk) && e in u.rewrite.source.entries
    ensures var t := e.dbTrackId;
      && t in q.decisionOf && q.decisionOf[t].asset.Some? && q.decisionOf[t].asset.value in u.gallery
      && var artwork := u.gallery[q.decisionOf[t].asset.value];
      && e.formats == artwork.formats && e.srcImgSize == artwork.srcImgSize
  {
    hide Prepared;
    hide Update.Planned;
    hide Live;
    hide FromEntries;
    hide ProtectedIn;
    hide SortedOf;
    var entries, live := u.rewrite.source.entries, u.LiveTracks(q);
    var i :| 0 <= i < |entries| && entries[i] == e;
    assert live[i] in live;
    LiveExactly(q.tracks, q.decisionOf, u.gallery, e.dbTrackId, live[i].asset);
  }

  /** The surroundings report what the device holds. */
  ghost predicate Reflects(env: Surroundings, disk: Disk) {
    && (forall name :: env.present(name) <==> Final(name) in disk)
    && (forall name, offset: nat, size: nat :: env.read(name, offset, size) == ReadFrame(disk, name, offset, size))
  }

  /** A file name that a frame of format `f` can stay under: not the database's, and not a shard
      name of any other format. */
  ghost predicate OwnName(f: nat, name: string) {
    name != ARTWORK_DB && forall g: nat, i: nat | g != f :: name != IthmbFilename(g, i)
  }

  ghost predicate RefFit(f: nat, ref: ExistingFormatRef) {
    && ref.width > 0 && ref.height > 0
    && IsBase(ref.filename) && ref.filename[|ref.filename| - 1] != '\0' && OwnName(f, ref.filename)
  }

  ghost predicate EntryFit(e: ExistingEntry) {
    forall f | f in e.formats :: RefFit(f, e.formats[f])
  }

  /** The database that was read has visible frames under plain names of their own format, and
      the encoder makes visible frames. */
  ghost predicate Sane(q: Request) {
    && (forall d | d in q.decisions && d.existing.Some? :: EntryFit(d.existing.value))
    && (forall image, f: nat | q.env.EncodeFor(image, f).Some? :: Describable(q.env.EncodeFor(image, f).value))
  }

  /** A frame that the database can describe, in a file that is there and its own. */
  ghost predicate FrameFit(env: Surroundings, f: nat, p: FormatPayload) {
    Describable(p) && (p.Passthrough? ==> env.present(p.filename) && OwnName(f, p.filename))
  }

  ghost predicate PayloadFit(env: Surroundings, formats: Payload) {
    forall f | f in formats :: FrameFit(env, f, formats[f])
  }

  lemma {:induction false} PassthroughFits(env: Surroundings, decisions: seq<Decision>, asset: AssetRef)
    requires forall d | d in decisions && d.existing.Some? :: EntryFit(d.existing.value)
    ensures PayloadFit(env, PassthroughFor(env, decisions, asset))
  {
    hide OwnName;
    hide IsBase;
    if decisions != [] {
      var n := |decisions| - 1;
      assert decisions == decisions[..n] + [decisions[n]];
      PassthroughFits(env, decisions[..n], asset);
    }
  }

  lemma CarriedFits(env: Surroundings, e: ExistingEntry, passthrough: Payload, rewrite: map<nat, string>)
    requires EntryFit(e) && PayloadFit(env, passthrough)
    ensures PayloadFit(env, Carried(env, e, passthrough, rewrite))
  {
    hide OwnName;
    hide IsBase;
  }

  lemma PreservedFits(env: Surroundings, e: ExistingEntry, passthrough: Payload, rewrite: map<nat, string>, targets: set<nat>,
                      required: set<nat>, r: Payload)
    requires EntryFit(e) && PayloadFit(env, passthrough)
    requires forall image, f: nat | env.EncodeFor(image, f).Some? :: Describable(env.EncodeFor(image, f).value)
    requires PreservedAs(env, e, passthrough, rewrite, targets, required, Some(r))
    ensures PayloadFit(env, r)
  {
    hide Carried;
    hide OwnName;
    hide EntryFit;
    hide KnownRefs;
    hide DecodedFrom;
    hide Describable;
    hide Surroundings.EncodeFor;
    CarriedFits(env, e, passthrough, rewrite);
    var base := if KnownRefs(env, e) == map[] then passthrough else Carried(env, e, passthrough, rewrite);
    assert PayloadFit(env, base);
    var missing := targets - base.Keys;
    if missing != {} {
      hide Salvaged;
      var image :| r == Salvaged(env, base, missing, image);
      SalvagedFits(env, base, missing, image);
    }
  }

  lemma SalvagedFits(env: Surroundings, carried: Payload, missing: set<nat>, image: Image)
    requires PayloadFit(env, carried)
    requires forall image, f: nat | env.EncodeFor(image, f).Some? :: Describable(env.EncodeFor(image, f).value)
    ensures PayloadFit(env, Salvaged(env, carried, missing, image))
  {
    hide Describable;
    hide OwnName;
  }

  /** Every frame of the gallery can be described, and one that stays has its file to itself. */
  lemma GalleryFits(q: Request, plan: Plan, asset: AssetRef, r: Option<Artwork>)
    requires Sane(q) && GalleryAt(q, plan, asset, r) && r.Some?
    ensures PayloadFit(q.env, r.value.formats)
  {
    hide PreservedAs;
    hide TargetsOf;
    hide Describable;
    hide Surroundings.EncodeFor;
    hide OwnName;
    hide EntryFit;
    hide PassthroughFor;
    var p :| IsPreserved(q.env, q.decisions, plan.rewrite, q.required, asset, p)
      && r == if p.Some? then p else NewArtwork(q.env, q.decisions, q.required, asset);
    if p.Some? {
      var e := FirstPreserved(q.decisions, asset).value;
      var i := PreservedFrom(q.decisions, asset);
      assert q.decisions[i] in q.decisions;
      PassthroughFits(q.env, q.decisions, asset);
      PreservedFits(q.env, e, PassthroughFor(q.env, q.decisions, asset), plan.rewrite,
                    TargetsOf(q.env, q.decisions, q.required, asset), q.required, p.value.formats);
    }
  }

  /** Every frame of the new database is describable, and the commit leaves the files of those
      that stay as they were. */
  lemma EntryFits(q: Request, disk: Disk, u: Update, e: ArtworkEntry)
    requires Sane(q) && Reflects(q.env, disk) && u.Answers(q, disk) && e in u.rewrite.source.entries
    ensures forall f | f in e.formats :: Describable(e.formats[f]) && LeftAlone(u.rewrite, e.formats[f])
  {
    hide Prepared;
    hide IsPlan;
    hide IsListing;
    hide GalleryAt;
    hide Live;
    hide Describable;
    hide IthmbFilename;
    hide IsTarget;
    hide Sane;
    hide ProtectedIn;
    var w := u.rewrite;
    var i :| 0 <= i < |w.source.entries| && w.source.entries[i] == e;
    var asset := u.LiveTracks(q)[i].asset;
    assert GalleryAt(q, u.plan, asset, ArtworkOf(u.gallery, asset));
    GalleryFits(q, u.plan, asset, ArtworkOf(u.gallery, asset));
    forall f | f in e.formats ensures Describable(e.formats[f]) && LeftAlone(w, e.formats[f]) {
      var p := e.formats[f];
      assert FrameFit(q.env, f, p);
      if p.Passthrough? {
        FormatsCover(w.source.entries, e, f);
        ProtectedLeftAlone(w, f, p);
      }
    }
  }

  /** What reading the committed ArtworkDB back gives for image `imgId`, if it is there. */
  ghost function ReadBack(w: Rewrite, imgId: int, utf8: Bytes -> string): Option<ExistingEntry> {
    var d := Committed(w);
    if Final(ARTWORK_DB) !in d then None
    else
      var read := ReadDatabase(DeviceEnv(d, utf8), d[Final(ARTWORK_DB)]);
      if read.Some? && imgId >= 0 && imgId in EntryMap(read.value) then Some(EntryMap(read.value)[imgId]) else None
  }

  /** The new ArtworkDB read back: entry `i` gives its track each of the asset's formats, and
      each of them reads back as the bytes encoded for it or the bytes it had before. */
  lemma UpdateReadsBack(q: Request, disk: Disk, u: Update, i: nat, f: nat, utf8: Bytes -> string)
    requires Sane(q) && Reflects(q.env, disk) && u.Answers(q, disk) && i < |u.LiveTracks(q)|
    requires u.LiveTracks(q)[i].asset in u.gallery && f in u.gallery[u.LiveTracks(q)[i].asset].formats
    ensures var t := u.LiveTracks(q)[i];
      var p := u.gallery[t.asset].formats[f];
      var got := ReadBack(u.rewrite, q.startId + i, utf8);
      && got.Some? && got.value.songId == t.track && got.value.formats.Keys == u.gallery[t.asset].formats.Keys
      && var ref := got.value.formats[f];
      && (ref.size, ref.width, ref.height, ref.hpad, ref.vpad) == (p.size, p.width, p.height, p.hpad, p.vpad)
      && Describable(p)
      && ReadFrame(Committed(u.rewrite), ref.filename, ref.offset, ref.size)
         == match p
            case Encoded(data, _, _, _, _, _) => Some(data)
            case Passthrough(filename, offset, size, _, _, _, _) => ReadFrame(disk, filename, offset, size)
  {
    hide Prepared;
    hide IsPlan;
    hide IsListing;
    hide GalleryAt;
    hide Live;
    hide Sane;
    hide EntryMap;
    hide ReadDatabase;
    hide Committed;
    var w := u.rewrite;
    var e := w.source.entries[i];
    assert e in w.source.entries;
    EntryFits(q, disk, u, e);
    RewriteReadsBack(w, e, f, utf8);
  }

  /** A preserved asset's frame in the gallery: still where it was, or a copy of its bytes. */
  lemma PreservedInGallery(q: Request, disk: Disk, u: Update, asset: AssetRef, f: nat)
    requires Reflects(q.env, disk) && GalleryAt(q, u.plan, asset, ArtworkOf(u.gallery, asset)) && asset in u.gallery
    requires FirstPreserved(q.decisions, asset).Some? && ArtOf(q.decisions, asset).None?
    requires var e := FirstPreserved(q.decisions, asset).value;
             f in KnownRefs(q.env, e) && (f in u.plan.rewrite && u.plan.rewrite[f] == e.formats[f].filename
                                          ==> q.env.WholeFrame(e.formats[f]).Some?)
    ensures f in u.gallery[asset].formats
    ensures var ref, p := FirstPreserved(q.decisions, asset).value.formats[f], u.gallery[asset].formats[f];
      && (ref.size, ref.width, ref.height, ref.hpad, ref.vpad) == (p.size, p.width, p.height, p.hpad, p.vpad)
      && match p
         case Encoded(data, _, _, _, _, _) => ReadFrame(disk, ref.filename, ref.offset, ref.size) == Some(data)
         case Passthrough(filename, offset, _, _, _, _, _) => filename == ref.filename && offset == ref.offset
  {
    hide PreservedAs;
    hide TargetsOf;
    hide PassthroughFor;
    hide FirstPreserved;
    hide ReadFrame;
    var e := FirstPreserved(q.decisions, asset).value;
    var r := u.gallery[asset].formats;
    PreservedFrame(q.env, e, PassthroughFor(q.env, q.decisions, asset), u.plan.rewrite,
                   TargetsOf(q.env, q.decisions, q.required, asset), q.required, Some(r), f);
  }

  /** Artwork that is to be kept survives the rewrite: reading the new database and then the
      device gives the bytes that the old reference gave, with the same geometry, unless its shard
      is being rewritten and its bytes could not all be read. */
  lemma PreservedArtSurvives(q: Request, disk: Disk, u: Update, i: nat, f: nat, utf8: Bytes -> string)
    requires Sane(q) && Reflects(q.env, disk) && u.Answers(q, disk) && i < |u.LiveTracks(q)|
    requires var asset := u.LiveTracks(q)[i].asset;
      && FirstPreserved(q.decisions, asset).Some? && ArtOf(q.decisions, asset).None?
      && var e := FirstPreserved(q.decisions, asset).value;
      && f in KnownRefs(q.env, e)
      && (f in u.plan.rewrite && u.plan.rewrite[f] == e.formats[f].filename ==> q.env.WholeFrame(e.formats[f]).Some?)
    ensures var before := FirstPreserved(q.decisions, u.LiveTracks(q)[i].asset).value.formats[f];
      var got := ReadBack(u.rewrite, q.startId + i, utf8);
      && got.Some? && f in got.value.formats
      && var ref := got.value.formats[f];
      && (ref.size, ref.width, ref.height, ref.hpad, ref.vpad)
         == (before.size, before.width, before.height, before.hpad, before.vpad)
      && ReadFrame(Committed(u.rewrite), ref.filename, ref.offset, ref.size)
         == ReadFrame(disk, before.filename, before.offset, before.size)
  {
    hide Prepared;
    hide IsPlan;
    hide IsListing;
    hide GalleryAt;
    hide Live;
    hide Sane;
    hide ReadBack;
    hide Committed;
    hide KnownRefs;
    hide FirstPreserved;
    hide ReadFrame;
    hide Describable;
    var t := u.LiveTracks(q)[i];
    assert GalleryAt(q, u.plan, t.asset, ArtworkOf(u.gallery, t.asset));
    PreservedInGallery(q, disk, u, t.asset, f);
    UpdateReadsBack(q, disk, u, i, f, utf8);
  }
}
