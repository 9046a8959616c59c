/** One request whose kept frame is lost, because it lies in a file named like a shard of another
    format. */
module ForeignNameExample {
  import opened Outcomes
  import opened Bytes
  import opened ArtworkTypes
  import opened IthmbPlanner
  import opened IthmbPaths
  import opened IthmbShards
  import opened IthmbWriter
  import opened ArtworkRewrite
  import opened ArtworkPayloads
  import opened ArtworkEntries
  import opened ArtworkUpdate

  const NAME := "F2_1.ithmb"

  /** A frame of format 1, in the file that is named like the first shard of format 2. */
  const REF := ExistingFormatRef(NAME, 0, 1, 1, 1, 0, 0)

  const OLD := ExistingEntry(7, 5, 0, map[1 := REF])
  const ASSET := AssetRef("preserve", "7")
  const KEEP := Decision(PreserveExisting, Some(ASSET), Some(OLD), None)
  const BEFORE: Disk := map[Final(NAME) := [7]]

  /** What format 2 encodes to. */
  const FRAME := Encoded([9], 1, 1, 1, 0, 0)

  const ENV := Surroundings({1, 2}, {2}, name => name == NAME, (f, ref) => true,
                            (name, offset, size) => ReadFrame(BEFORE, name, offset, size),
                            (f, ref, bytes) => Some(bytes), (image, f) => Some(FRAME), bytes => None)

  /** One track keeps its artwork; the device requires format 2. */
  const REQUEST := Request(ENV, [OLD], [5], map[5 := KEEP], [KEEP], {2}, 100)

  function Frames(): Payload {
    map[1 := PassthroughOf(REF), 2 := FRAME]
  }

  lemma NothingNew(asset: AssetRef)
    ensures ArtOf([KEEP], asset) == None && NewArtwork(ENV, [KEEP], {2}, asset) == None
  {
    var decisions := [KEEP];
    assert decisions[..|decisions| - 1] == [];
  }

  lemma NothingPlanned(u: Update)
    requires u.Planned(REQUEST)
    ensures u.plan.rewrite == map[] && u.plan.start == map[]
  {
    hide NewArtwork;
    hide GalleryAt;
    if |u.order| > 0 {
      NothingNew(u.order[0]);
      assert false;
    }
    assert u.payloads == [];
    assert u.plan.start.Keys == {};
    assert u.plan.rewrite.Keys == {};
  }

  lemma Asked()
    ensures FirstPreserved([KEEP], ASSET) == Some(OLD)
    ensures TargetsOf(ENV, [KEEP], {2}, ASSET) == {1, 2} && PassthroughFor(ENV, [KEEP], ASSET) == map[]
  {
    var decisions := [KEEP];
    assert decisions[..|decisions| - 1] == [];
    assert KnownPresent(ENV, Some(OLD)) == {1};
    assert UnknownPassthrough(ENV, OLD) == map[];
  }

  lemma FrameRead()
    ensures ENV.WholeFrame(REF) == Some([7])
    ensures forall image :: DecodedFrom(ENV, OLD, image) <==> image == [7]
  {
    assert BEFORE[Final(NAME)][0..1] == [7];
    var image := [7];
    assert 1 in OLD.formats && ENV.decode(1, REF, [7]) == Some(image);
  }

  lemma Kept(r: Option<Payload>)
    requires PreservedAs(ENV, OLD, map[], map[], {1, 2}, {2}, r)
    ensures r == Some(Frames())
  {
    hide DecodedFrom;
    FrameRead();
    assert KnownRefs(ENV, OLD) == map[1 := REF];
    var base := Carried(ENV, OLD, map[], map[]);
    assert base == map[1 := PassthroughOf(REF)];
    assert {1, 2} - base.Keys == {2};
    assert Salvaged(ENV, base, {2}, [7]) == Frames();
    assert DecodedFrom(ENV, OLD, [7]);
  }

  lemma InGallery(u: Update)
    requires u.Planned(REQUEST)
    ensures ASSET in u.gallery && u.gallery[ASSET].formats == Frames()
  {
    hide IsListing;
    hide IsPlan;
    hide PreservedAs;
    hide NewArtwork;
    hide FirstPreserved;
    hide TargetsOf;
    hide PassthroughFor;
    NothingPlanned(u);
    Asked();
    assert GalleryAt(REQUEST, u.plan, ASSET, ArtworkOf(u.gallery, ASSET));
    var p :| IsPreserved(ENV, [KEEP], u.plan.rewrite, {2}, ASSET, p)
      && ArtworkOf(u.gallery, ASSET) == if p.Some? then p else NewArtwork(ENV, [KEEP], {2}, ASSET);
    Kept(if p.Some? then Some(p.value.formats) else None);
  }

  lemma OneLive(g: Gallery)
    requires ASSET in g
    ensures Live([5], map[5 := KEEP], g) == [LiveTrack(5, ASSET)]
  {
    var tracks: seq<int> := [5];
    assert tracks[..|tracks| - 1] == [];
    assert Shown(5, map[5 := KEEP], g) == Some(ASSET);
    assert Live([], map[5 := KEEP], g) == [];
    assert Live(tracks, map[5 := KEEP], g) == Live(tracks[..|tracks| - 1], map[5 := KEEP], g) + [LiveTrack(5, ASSET)];
  }

  lemma ReadOne(disk: Disk, data: Bytes)
    requires Final(NAME) in disk && disk[Final(NAME)] == data && |data| == 1
    ensures ReadFrame(disk, NAME, 0, 1) == Some(data)
  {
    assert data[0..1] == data;
  }

  lemma OneEntry(u: Update)
    requires u.Answers(REQUEST, BEFORE)
    ensures var entries := u.rewrite.source.entries;
      && |entries| == 1 && entries[0].formats == Frames()
      && u.rewrite.shards.StartOf(2) == 0 && u.rewrite.shards.ProtectedOf(2) == {}
  {
    hide Update.Planned;
    hide Prepared;
    hide FromEntries;
    hide Shards.Contiguous;
    hide Shards.Budgeted;
    hide SameFinals;
    InGallery(u);
    NothingPlanned(u);
    OneLive(u.gallery);
    var entries := u.rewrite.source.entries;
    assert entries[..|entries| - 1] == [];
    assert ProtectedIn(entries, 2) == {};
  }

  lemma ShardName()
    ensures IthmbFilename(2, 1) == NAME
  {
  }

  lemma FramesDiffer(log: Log, j: nat, k: nat)
    requires OncePerAsset(log) && j < k < |log|
    ensures log[j].asset != log[k].asset || log[j].f != log[k].f
  {
  }

  /** The only frame that is written is the new one. */
  lemma OneFrame(w: Rewrite)
    requires |w.source.entries| == 1 && w.source.entries[0].formats == Frames()
    requires FramesOf(w) && OncePerAsset(w.shards.log) && HasFrame(w.shards.log, 2, 1)
    ensures Content(w.shards.log, 2, 1) == [9]
  {
    var log := w.shards.log;
    forall k | 0 <= k < |log| ensures log[k].f == 2 && log[k].data == [9] && log[k].asset == log[0].asset {
      assert FromEntries(log[k], w.source.entries, w.assetOf) && FromEntries(log[0], w.source.entries, w.assetOf);
    }
    var k :| 0 <= k < |log| && log[k].f == 2 && log[k].index == 1;
    if |log| > 1 {
      FramesDiffer(log, 0, 1);
      assert false;
    }
    assert log == [log[0]] && log[..|log| - 1] == [];
    assert Content(log[..|log| - 1], 2, 1) == [];
  }

  /** However the request is carried out, the kept frame's reference stays, and what it refers to has
      become the bytes of the other format. */
  lemma KeptFrameLost(u: Update)
    requires u.Answers(REQUEST, BEFORE)
    ensures |u.rewrite.source.entries| == 1 && 1 in u.rewrite.source.entries[0].formats
    ensures u.rewrite.source.entries[0].formats[1] == PassthroughOf(REF)
    ensures ReadFrame(BEFORE, REF.filename, REF.offset, REF.size) == Some([7])
    ensures ReadFrame(Committed(u.rewrite), REF.filename, REF.offset, REF.size) == Some([9])
  {
    hide Update.Planned;
    hide Prepared;
    hide FromEntries;
    hide Shards.Contiguous;
    hide SameFinals;
    hide IthmbFilename;
    hide Content;
    hide Committed;
    hide OncePerAsset;
    var w := u.rewrite;
    OneEntry(u);
    ShardName();
    ForeignNameReplacedIff(w, 2);
    assert w.source.entries[0] in w.source.entries && Writes(w.source.entries, 2);
    ShardReplacedIff(w, 2, 1);
    assert HasFrame(w.shards.log, 2, 1);
    OneFrame(w);
    ReadOne(BEFORE, [7]);
    ReadOne(Committed(w), [9]);
  }
}
