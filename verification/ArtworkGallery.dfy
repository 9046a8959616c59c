/** Which frames an asset gets, in terms of the decisions and the references they carry. */
module ArtworkGallery {
  import opened Outcomes
  import opened ArtworkTypes
  import opened IthmbPlanner
  import opened IthmbShards
  import opened ArtworkPayloads
  import opened ArtworkUpdate

  /** Decision `i` keeps artwork of the asset that is already on the device. */
  predicate KeepsAt(decisions: seq<Decision>, asset: AssetRef, i: int) {
    && 0 <= i < |decisions| && decisions[i].asset == Some(asset) && decisions[i].existing.Some?
    && match decisions[i].kind
       case PreserveExisting => true
       case PreserveFallback => true
       case NewFromPc => false
       case ClearArt => false
  }

  /** Decision `i` brings a new image for the asset. */
  predicate BringsAt(decisions: seq<Decision>, asset: AssetRef, i: int) {
    0 <= i < |decisions| && decisions[i].asset == Some(asset) && decisions[i].art.Some? && decisions[i].kind == NewFromPc
  }

  /** An asset must have the required formats, and every known one that any of its entries has. */
  lemma {:induction false} TargetsIff(env: Surroundings, decisions: seq<Decision>, required: set<nat>, asset: AssetRef, f: nat)
    ensures f in TargetsOf(env, decisions, required, asset)
            <==> exists i :: 0 <= i < |decisions| && AsksFor(env, decisions[i], required, asset, f)
  {
    if decisions != [] {
      var n := |decisions| - 1;
      TargetsIff(env, decisions[..n], required, asset, f);
      assert forall i | 0 <= i < n :: decisions[..n][i] == decisions[i];
      if i :| 0 <= i < |decisions| && AsksFor(env, decisions[i], required, asset, f) {
        if i < n { assert AsksFor(env, decisions[..n][i], required, asset, f); }
      }
    }
  }

  predicate AsksFor(env: Surroundings, d: Decision, required: set<nat>, asset: AssetRef, f: nat) {
    && d.asset == Some(asset)
    && (f in required || (d.existing.Some? && f in d.existing.value.formats && f in env.known))
  }

  /** The first decision to keep an asset says where its frames are. */
  lemma {:induction false} FirstKeeps(decisions: seq<Decision>, asset: AssetRef, i: nat)
    requires KeepsAt(decisions, asset, i) && forall j | 0 <= j < i :: !KeepsAt(decisions, asset, j)
    ensures FirstPreserved(decisions, asset) == decisions[i].existing
  {
    var n := |decisions| - 1;
    if i < n {
      assert forall j | 0 <= j <= i :: KeepsAt(decisions[..n], asset, j) <==> KeepsAt(decisions, asset, j);
      FirstKeeps(decisions[..n], asset, i);
    } else {
      assert forall j | 0 <= j < n :: KeepsAt(decisions[..n], asset, j) <==> KeepsAt(decisions, asset, j);
      NoneKeeps(decisions[..n], asset);
    }
  }

  lemma {:induction false} NoneKeeps(decisions: seq<Decision>, asset: AssetRef)
    requires forall j | 0 <= j < |decisions| :: !KeepsAt(decisions, asset, j)
    ensures FirstPreserved(decisions, asset) == None
  {
    if decisions != [] {
      var n := |decisions| - 1;
      assert forall j | 0 <= j < n :: KeepsAt(decisions[..n], asset, j) <==> KeepsAt(decisions, asset, j);
      assert !KeepsAt(decisions, asset, n);
      NoneKeeps(decisions[..n], asset);
    }
  }

  /** The last decision to bring a new image gives the one that is converted. */
  lemma {:induction false} LastBrings(decisions: seq<Decision>, asset: AssetRef, i: nat)
    requires BringsAt(decisions, asset, i) && forall j | i < j < |decisions| :: !BringsAt(decisions, asset, j)
    ensures ArtOf(decisions, asset) == decisions[i].art
  {
    var n := |decisions| - 1;
    if i < n {
      assert !BringsAt(decisions, asset, n);
      assert forall j | 0 <= j < n :: BringsAt(decisions[..n], asset, j) <==> BringsAt(decisions, asset, j);
      LastBrings(decisions[..n], asset, i);
    }
  }

  lemma {:induction false} NoneBrings(decisions: seq<Decision>, asset: AssetRef)
    requires forall j | 0 <= j < |decisions| :: !BringsAt(decisions, asset, j)
    ensures ArtOf(decisions, asset) == None
  {
    if decisions != [] {
      var n := |decisions| - 1;
      assert forall j | 0 <= j < n :: BringsAt(decisions[..n], asset, j) <==> BringsAt(decisions, asset, j);
      assert !BringsAt(decisions, asset, n);
      NoneBrings(decisions[..n], asset);
    }
  }

  /** A reference to a known format that is in its file and agrees with the format's geometry. */
  predicate Sound(env: Surroundings, f: nat, ref: ExistingFormatRef) {
    f in env.known && ref.size > 0 && env.present(ref.filename) && env.sound(f, ref)
  }

  /** A frame that an asset keeps: every sound frame of a known format stays exactly where it is, or,
      if new frames go into its file, is copied with its bytes and its geometry. */
  lemma KeptFrame(q: Request, disk: Disk, u: Update, asset: AssetRef, i: nat, f: nat)
    requires u.Answers(q, disk) && asset in u.gallery
    requires KeepsAt(q.decisions, asset, i) && forall j | 0 <= j < i :: !KeepsAt(q.decisions, asset, j)
    requires forall j | 0 <= j < |q.decisions| :: !BringsAt(q.decisions, asset, j)
    requires var e := q.decisions[i].existing.value; f in e.formats && Sound(q.env, f, e.formats[f])
    ensures u.gallery[asset].srcImgSize == q.decisions[i].existing.value.srcImgSize
    ensures var ref, formats := q.decisions[i].existing.value.formats[f], u.gallery[asset].formats;
      if f in u.plan.rewrite && u.plan.rewrite[f] == ref.filename then
        var bytes := q.env.read(ref.filename, ref.offset, ref.size);
        bytes.Some? && |bytes.value| == ref.size ==>
          f in formats && formats[f] == Encoded(bytes.value, ref.size, ref.width, ref.height, ref.hpad, ref.vpad)
      else
        f in formats
        && formats[f] == Passthrough(ref.filename, ref.offset, ref.size, ref.width, ref.height, ref.hpad, ref.vpad)
  {
    hide Update.Written;
    hide IsListing;
    hide IsPlan;
    hide PreservedAs;
    hide TargetsOf;
    hide PassthroughFor;
    hide FirstPreserved;
    hide ArtOf;
    hide BringsAt;
    FirstKeeps(q.decisions, asset, i);
    NoneBrings(q.decisions, asset);
    assert GalleryAt(q, u.plan, asset, ArtworkOf(u.gallery, asset));
    var e, formats := q.decisions[i].existing.value, u.gallery[asset].formats;
    PreservedFrame(q.env, e, PassthroughFor(q.env, q.decisions, asset), u.plan.rewrite,
                   TargetsOf(q.env, q.decisions, q.required, asset), q.required, Some(formats), f);
  }

  /** Frames of formats that nothing is known about stay where the last reference to them says. */
  lemma {:induction false} UnknownKept(env: Surroundings, decisions: seq<Decision>, asset: AssetRef, i: nat, f: nat)
    requires UnknownAt(env, decisions, asset, i, f) && forall j | i < j < |decisions| :: !UnknownAt(env, decisions, asset, j, f)
    ensures f in PassthroughFor(env, decisions, asset)
    ensures PassthroughFor(env, decisions, asset)[f] == PassthroughOf(decisions[i].existing.value.formats[f])
  {
    var n := |decisions| - 1;
    if i < n {
      assert !UnknownAt(env, decisions, asset, n, f);
      assert forall j | 0 <= j < n :: UnknownAt(env, decisions[..n], asset, j, f) <==> UnknownAt(env, decisions, asset, j, f);
      UnknownKept(env, decisions[..n], asset, i, f);
    }
  }

  /** Decision `i` keeps a frame of a format without a definition, which is in its file. */
  predicate UnknownAt(env: Surroundings, decisions: seq<Decision>, asset: AssetRef, i: int, f: nat) {
    && KeepsAt(decisions, asset, i) && f !in env.known
    && var e := decisions[i].existing.value;
       f in e.formats && e.formats[f].size > 0 && env.present(e.formats[f].filename)
  }

  lemma CarriedUnknown(env: Surroundings, e: ExistingEntry, passthrough: Payload, rewrite: map<nat, string>, f: nat)
    requires f !in env.known && f in passthrough
    ensures f in Carried(env, e, passthrough, rewrite) && Carried(env, e, passthrough, rewrite)[f] == passthrough[f]
  {
    hide CarriedFrame;
  }

  lemma UnknownPreserved(env: Surroundings, e: ExistingEntry, passthrough: Payload, rewrite: map<nat, string>,
                         targets: set<nat>, required: set<nat>, r: Payload, f: nat)
    requires PreservedAs(env, e, passthrough, rewrite, targets, required, Some(r)) && f !in env.known && f in passthrough
    ensures f in r && r[f] == passthrough[f]
  {
    hide DecodedFrom;
    hide Carried;
    CarriedUnknown(env, e, passthrough, rewrite, f);
  }

  /** A frame of an unknown format that an asset keeps stays exactly where it is. */
  lemma UnknownFrame(q: Request, disk: Disk, u: Update, asset: AssetRef, i: nat, k: nat, f: nat)
    requires u.Answers(q, disk) && asset in u.gallery
    requires KeepsAt(q.decisions, asset, k) && forall j | 0 <= j < k :: !KeepsAt(q.decisions, asset, j)
    requires forall j | 0 <= j < |q.decisions| :: !BringsAt(q.decisions, asset, j)
    requires UnknownAt(q.env, q.decisions, asset, i, f)
    requires forall j | i < j < |q.decisions| :: !UnknownAt(q.env, q.decisions, asset, j, f)
    ensures var ref, formats := q.decisions[i].existing.value.formats[f], u.gallery[asset].formats;
            f in formats
            && formats[f] == Passthrough(ref.filename, ref.offset, ref.size, ref.width, ref.height, ref.hpad, ref.vpad)
  {
    hide Update.Written;
    hide IsListing;
    hide IsPlan;
    hide PreservedAs;
    hide TargetsOf;
    hide PassthroughFor;
    hide FirstPreserved;
    hide ArtOf;
    hide BringsAt;
    FirstKeeps(q.decisions, asset, k);
    NoneBrings(q.decisions, asset);
    UnknownKept(q.env, q.decisions, asset, i, f);
    assert GalleryAt(q, u.plan, asset, ArtworkOf(u.gallery, asset));
    UnknownPreserved(q.env, q.decisions[k].existing.value, PassthroughFor(q.env, q.decisions, asset), u.plan.rewrite,
                     TargetsOf(q.env, q.decisions, q.required, asset), q.required, u.gallery[asset].formats, f);
  }

  /** A format that a kept asset must have and that nothing could be carried over for: it is encoded
      from the decoded image of one whole frame of a known format of the asset. */
  lemma SalvagedFrame(env: Surroundings, e: ExistingEntry, passthrough: Payload, rewrite: map<nat, string>,
                      targets: set<nat>, required: set<nat>, r: Payload, f: nat)
    requires PreservedAs(env, e, passthrough, rewrite, targets, required, Some(r)) && f in r
    requires f !in passthrough && f !in Carried(env, e, passthrough, rewrite)
    ensures f in targets && f in env.sized
    ensures exists g, bytes, image ::
      g in e.formats && g in env.known
      && env.read(e.formats[g].filename, e.formats[g].offset, e.formats[g].size) == Some(bytes) && |bytes| == e.formats[g].size
      && env.decode(g, e.formats[g], bytes) == Some(image) && env.encode(image, f) == Some(r[f])
  {
    hide Carried;
    hide KnownRefs;
    hide DecodedFrom;
    var base := if KnownRefs(env, e) == map[] then passthrough else Carried(env, e, passthrough, rewrite);
    var image :| DecodedFrom(env, e, image) && r == Salvaged(env, base, targets - base.Keys, image);
    DecodedHow(env, e, image, f);
  }

  lemma DecodedHow(env: Surroundings, e: ExistingEntry, image: Image, f: nat)
    requires DecodedFrom(env, e, image)
    ensures exists g, bytes, i ::
      g in e.formats && g in env.known
      && env.read(e.formats[g].filename, e.formats[g].offset, e.formats[g].size) == Some(bytes) && |bytes| == e.formats[g].size
      && env.decode(g, e.formats[g], bytes) == Some(i) && env.encode(i, f) == env.encode(image, f)
  {
    var g: nat :| g in e.formats && g in env.known && env.WholeFrame(e.formats[g]).Some?
      && env.decode(g, e.formats[g], env.WholeFrame(e.formats[g]).value) == Some(image);
  }

  /** The frames of an asset that is given anew and not kept: the last image given for it, encoded for
      every format it must have for which that is possible. */
  lemma NewFrames(q: Request, disk: Disk, u: Update, asset: AssetRef, i: nat, f: nat)
    requires u.Answers(q, disk) && asset in u.gallery
    requires BringsAt(q.decisions, asset, i) && forall j | i < j < |q.decisions| :: !BringsAt(q.decisions, asset, j)
    requires forall j | 0 <= j < |q.decisions| :: !KeepsAt(q.decisions, asset, j)
    ensures var art := q.decisions[i].art.value;
      var image, formats := q.env.load(art), u.gallery[asset].formats;
      && image.Some? && u.gallery[asset].srcImgSize == |art|
      && (f in formats <==> f in TargetsOf(q.env, q.decisions, q.required, asset) && f in q.env.sized
                            && q.env.encode(image.value, f).Some? && q.env.encode(image.value, f).value.Encoded?)
      && (f in formats ==> q.env.encode(image.value, f) == Some(formats[f]))
  {
    hide Update.Written;
    hide IsListing;
    hide IsPlan;
    hide PreservedAs;
    hide TargetsOf;
    hide PassthroughFor;
    hide FirstPreserved;
    hide ArtOf;
    hide KeepsAt;
    hide BringsAt;
    LastBrings(q.decisions, asset, i);
    NoneKeeps(q.decisions, asset);
    assert GalleryAt(q, u.plan, asset, ArtworkOf(u.gallery, asset));
  }

  /** A frame that can be carried over: a sound one that stays, or can be read whole. */
  predicate Carriable(env: Surroundings, f: nat, ref: ExistingFormatRef, rewrite: map<nat, string>) {
    && Sound(env, f, ref)
    && (f in rewrite && rewrite[f] == ref.filename ==>
          env.read(ref.filename, ref.offset, ref.size).Some? && |env.read(ref.filename, ref.offset, ref.size).value| == ref.size)
  }

  lemma WholeCarried(env: Surroundings, e: ExistingEntry, passthrough: Payload, rewrite: map<nat, string>,
                     targets: set<nat>, required: set<nat>, r: Option<Payload>)
    requires PreservedAs(env, e, passthrough, rewrite, targets, required, r) && targets != {}
    requires forall f | f in targets :: f in e.formats && Carriable(env, f, e.formats[f], rewrite)
    ensures r.Some?
  {
    hide DecodedFrom;
    var f :| f in targets;
    assert f in KnownRefs(env, e);
    forall f | f in targets ensures f in Carried(env, e, passthrough, rewrite) {
      assert f in KnownRefs(env, e) && CarriedFrame(env, e.formats[f], f, rewrite).Some?;
    }
  }

  lemma SalvageCarried(env: Surroundings, e: ExistingEntry, passthrough: Payload, rewrite: map<nat, string>,
                       targets: set<nat>, required: set<nat>, r: Option<Payload>, image: Image)
    requires PreservedAs(env, e, passthrough, rewrite, targets, required, r) && required <= targets
    requires DecodedFrom(env, e, image)
    requires forall i, f | DecodedFrom(env, e, i) && f in required :: env.EncodeFor(i, f).Some?
    requires exists f :: f in targets && f !in passthrough && f !in Carried(env, e, passthrough, rewrite)
    ensures r.Some?
  {
    hide DecodedFrom;
    hide Carried;
    hide KnownRefs;
    var base := if KnownRefs(env, e) == map[] then passthrough else Carried(env, e, passthrough, rewrite);
    var f :| f in targets && f !in passthrough && f !in Carried(env, e, passthrough, rewrite);
    assert f in targets - base.Keys;
    var i :| DecodedFrom(env, e, i)
      && r == if required <= Salvaged(env, base, targets - base.Keys, i).Keys then Some(Salvaged(env, base, targets - base.Keys, i)) else None;
    assert forall g | g in required :: g in base || g in targets - base.Keys;
  }

  /** An asset that is kept stays in the new database when each format it must have can be carried
      over from a sound frame. */
  lemma WholeAssetKept(q: Request, disk: Disk, u: Update, asset: AssetRef, i: nat)
    requires u.Answers(q, disk) && q.required != {}
    requires KeepsAt(q.decisions, asset, i) && forall j | 0 <= j < i :: !KeepsAt(q.decisions, asset, j)
    requires var e := q.decisions[i].existing.value;
             forall f | f in TargetsOf(q.env, q.decisions, q.required, asset) ::
               f in e.formats && Carriable(q.env, f, e.formats[f], u.plan.rewrite)
    ensures asset in u.gallery
  {
    hide Update.Written;
    hide IsListing;
    hide IsPlan;
    hide PreservedAs;
    hide TargetsOf;
    hide PassthroughFor;
    hide FirstPreserved;
    hide ArtOf;
    hide NewArtwork;
    FirstKeeps(q.decisions, asset, i);
    TargetsIncludeRequired(q.env, q.decisions, q.required, asset, i);
    assert GalleryAt(q, u.plan, asset, ArtworkOf(u.gallery, asset));
    var p :| IsPreserved(q.env, q.decisions, u.plan.rewrite, q.required, asset, p)
      && ArtworkOf(u.gallery, asset) == if p.Some? then p else NewArtwork(q.env, q.decisions, q.required, asset);
    WholeCarried(q.env, q.decisions[i].existing.value, PassthroughFor(q.env, q.decisions, asset), u.plan.rewrite,
                 TargetsOf(q.env, q.decisions, q.required, asset), q.required, if p.Some? then Some(p.value.formats) else None);
  }

  /** It also stays when something is missing, some frame of it can be decoded, and every required
      format can be encoded from whatever is decoded. */
  lemma SalvagedAssetKept(q: Request, disk: Disk, u: Update, asset: AssetRef, i: nat, image: Image, f: nat)
    requires u.Answers(q, disk)
    requires KeepsAt(q.decisions, asset, i) && forall j | 0 <= j < i :: !KeepsAt(q.decisions, asset, j)
    requires var e := q.decisions[i].existing.value;
      && DecodedFrom(q.env, e, image)
      && (forall x, g | DecodedFrom(q.env, e, x) && g in q.required :: q.env.EncodeFor(x, g).Some?)
      && f in TargetsOf(q.env, q.decisions, q.required, asset) && f !in PassthroughFor(q.env, q.decisions, asset)
      && f !in Carried(q.env, e, PassthroughFor(q.env, q.decisions, asset), u.plan.rewrite)
    ensures asset in u.gallery
  {
    hide Update.Written;
    hide IsListing;
    hide IsPlan;
    hide PreservedAs;
    hide TargetsOf;
    hide PassthroughFor;
    hide FirstPreserved;
    hide ArtOf;
    hide NewArtwork;
    hide DecodedFrom;
    hide Carried;
    FirstKeeps(q.decisions, asset, i);
    TargetsIncludeRequired(q.env, q.decisions, q.required, asset, i);
    assert GalleryAt(q, u.plan, asset, ArtworkOf(u.gallery, asset));
    var p :| IsPreserved(q.env, q.decisions, u.plan.rewrite, q.required, asset, p)
      && ArtworkOf(u.gallery, asset) == if p.Some? then p else NewArtwork(q.env, q.decisions, q.required, asset);
    SalvageCarried(q.env, q.decisions[i].existing.value, PassthroughFor(q.env, q.decisions, asset), u.plan.rewrite,
                   TargetsOf(q.env, q.decisions, q.required, asset), q.required, if p.Some? then Some(p.value.formats) else None, image);
  }

  /** An asset that is only given anew is in the new database exactly when its image loads and every
      required format can be encoded from it. */
  lemma NewAssetIff(q: Request, disk: Disk, u: Update, asset: AssetRef, i: nat)
    requires u.Answers(q, disk)
    requires BringsAt(q.decisions, asset, i) && forall j | i < j < |q.decisions| :: !BringsAt(q.decisions, asset, j)
    requires forall j | 0 <= j < |q.decisions| :: !KeepsAt(q.decisions, asset, j)
    ensures asset in u.gallery
            <==> var image := q.env.load(q.decisions[i].art.value);
                 image.Some? && forall f | f in q.required :: q.env.EncodeFor(image.value, f).Some?
  {
    hide Update.Written;
    hide IsListing;
    hide IsPlan;
    hide PreservedAs;
    hide TargetsOf;
    hide PassthroughFor;
    hide FirstPreserved;
    hide ArtOf;
    LastBrings(q.decisions, asset, i);
    NoneKeeps(q.decisions, asset);
    TargetsIncludeRequired(q.env, q.decisions, q.required, asset, i);
    assert GalleryAt(q, u.plan, asset, ArtworkOf(u.gallery, asset));
  }
}
