/** A whole rewrite, from the tracks and their files: which artwork a track ends up with. */
module ArtworkOutcome {
  import opened Outcomes
  import opened Bytes
  import opened ArtworkTypes
  import opened IthmbPlanner
  import opened IthmbShards
  import opened ArtworkKeys
  import opened ArtworkDecisions
  import opened ArtworkPayloads
  import opened ArtworkEntries
  import opened ArtworkRewrite
  import opened ArtworkUpdate
  import opened ShardAccounting

  /** The request that `write_artworkdb` makes of its tracks, their files and the entries on the device. */
  ghost predicate Asks(q: Request, src: Sources, tracks: seq<Track>) {
    && Keyed(q.existing) && src.Consistent()
    && |q.tracks| == |tracks| && (forall i | 0 <= i < |tracks| :: q.tracks[i] == tracks[i].id)
    && var s := Collected(q.existing, src, tracks);
    && q.decisionOf == s.decisionOf
    && |q.decisions| == |s.order|
    && (forall i | 0 <= i < |s.order| :: s.order[i] in s.decisionOf && q.decisions[i] == s.decisionOf[s.order[i]])
  }

  /** Track `i` is the last one with its id. */
  ghost predicate LastOf(tracks: seq<Track>, i: nat) {
    i < |tracks| && tracks[i].id != 0 && forall j | i < j < |tracks| :: tracks[j].id != tracks[i].id
  }

  lemma {:induction false} HasLast(tracks: seq<Track>, id: int) returns (i: nat)
    requires id != 0 && HasId(tracks, id)
    ensures LastOf(tracks, i) && tracks[i].id == id
  {
    var n := |tracks| - 1;
    if tracks[n].id == id {
      i := n;
    } else {
      HasIdLast(tracks, id);
      i := HasLast(tracks[..n], id);
    }
  }

  lemma DecisionAt(existing: Entries, src: Sources, tracks: seq<Track>, id: int)
    ensures var s := Collected(existing, src, tracks);
            (id in s.decisionOf <==> id != 0 && HasId(tracks, id)) && (id in s.order <==> id in s.decisionOf)
  {
    hide Collected;
    hide HasId;
    OneDecision(existing, src, tracks);
  }

  /** Every decision is one that a track with an id got. */
  lemma DecisionFrom(q: Request, src: Sources, tracks: seq<Track>, d: Decision) returns (i: nat)
    requires Asks(q, src, tracks) && d in q.decisions
    ensures LastOf(tracks, i) && d == Decided(q.existing, src, tracks[i], OwnArt(src, tracks[i]))
  {
    hide Decided;
    hide Collected;
    hide HasId;
    var s := Collected(q.existing, src, tracks);
    var k :| 0 <= k < |q.decisions| && q.decisions[k] == d;
    var id := s.order[k];
    DecisionAt(q.existing, src, tracks, id);
    i := HasLast(tracks, id);
    LastDecides(q.existing, src, tracks, i);
  }

  lemma ExistingIn(existing: Entries, t: Track)
    requires Keyed(existing) && Linked(existing, t).Some?
    ensures Linked(existing, t).value in existing
  {
    LinkedIff(existing, t, Linked(existing, t).value);
  }

  /** Kept assets and new ones are told apart by their sources, and what is kept is on the device. */
  lemma DecisionShape(q: Request, src: Sources, tracks: seq<Track>, d: Decision)
    requires Asks(q, src, tracks) && d in q.decisions
    ensures d.Preserves() ==> d.asset == Some(PreservedAsset(d.existing.value)) && d.existing.value in q.existing
    ensures d.kind.NewFromPc? && d.asset.Some? ==> d.asset.value.source == "pc"
    ensures d.existing.Some? ==> d.existing.value in q.existing
  {
    hide Decided;
    hide Linked;
    hide Collected;
    hide PreservedAsset;
    var i := DecisionFrom(q, src, tracks, d);
    DecidedIff(q.existing, src, tracks[i]);
    if d.existing.Some? {
      ExistingIn(q.existing, tracks[i]);
    }
  }

  /** No asset is both kept and made anew. */
  lemma AssetsSeparate(q: Request, src: Sources, tracks: seq<Track>)
    requires Asks(q, src, tracks)
    ensures Separate(q) && FromExisting(q.decisions, q.existing)
  {
    hide Asks;
    hide PreservedAsset;
    forall d | d in q.decisions
      ensures d.Preserves() ==> d.asset.value.source == "preserve" && d.existing.value in q.existing
      ensures d.kind.NewFromPc? && d.asset.Some? ==> d.asset.value.source == "pc"
    {
      DecisionShape(q, src, tracks, d);
      if d.Preserves() { PreserveSource(d.existing.value); }
    }
    forall a | FirstPreserved(q.decisions, a).Some? ensures ArtOf(q.decisions, a).None? {
      var d := PreservedBy(q.decisions, a);
      if ArtOf(q.decisions, a).Some? {
        var n := MadeBy(q.decisions, a);
        assert false;
      }
    }
  }

  lemma PreserveSource(e: ExistingEntry)
    ensures PreservedAsset(e).source == "preserve"
  {
  }

  lemma {:induction false} PreservedBy(decisions: seq<Decision>, a: AssetRef) returns (d: Decision)
    requires FirstPreserved(decisions, a).Some?
    ensures d in decisions && d.Preserves() && d.asset == Some(a) && d.existing == FirstPreserved(decisions, a)
  {
    var n := |decisions| - 1;
    if FirstPreserved(decisions[..n], a).Some? {
      d := PreservedBy(decisions[..n], a);
    } else {
      d := decisions[n];
    }
  }

  lemma {:induction false} MadeBy(decisions: seq<Decision>, a: AssetRef) returns (d: Decision)
    requires ArtOf(decisions, a).Some?
    ensures d in decisions && d.kind.NewFromPc? && d.asset == Some(a) && d.art == ArtOf(decisions, a)
  {
    var n := |decisions| - 1;
    if decisions[n].kind.NewFromPc? && decisions[n].asset == Some(a) && decisions[n].art.Some? {
      d := decisions[n];
    } else {
      d := MadeBy(decisions[..n], a);
    }
  }

  lemma {:induction false} SomePreserved(decisions: seq<Decision>, d: Decision)
    requires d in decisions && d.Preserves()
    ensures FirstPreserved(decisions, d.asset.value).Some?
  {
    var n := |decisions| - 1;
    if decisions[n] != d {
      assert decisions == decisions[..n] + [decisions[n]];
      SomePreserved(decisions[..n], d);
    }
  }

  /** What is on the device, as the reader gives it: entries with frames, under names without marks. */
  ghost predicate Plain(existing: Entries) {
    forall e | e in existing :: e.formats != map[] && Unmarked(e.formats)
  }

  /** An entry of the device that shows the same frames stands for the asset of a track that keeps its own. */
  lemma KeptInstead(q: Request, src: Sources, tracks: seq<Track>, d: Decision)
    requires Asks(q, src, tracks) && Plain(q.existing) && d in q.decisions && d.Preserves()
    ensures var first := FirstPreserved(q.decisions, d.asset.value);
            first.Some? && first.value in q.existing && SameFrames(first.value.formats, d.existing.value.formats)
  {
    hide Asks;
    hide PreservedAsset;
    SomePreserved(q.decisions, d);
    var c := PreservedBy(q.decisions, d.asset.value);
    DecisionShape(q, src, tracks, d);
    DecisionShape(q, src, tracks, c);
    SameAssetIff(c.existing.value, d.existing.value);
  }

  /** The decision of a live track is one of the request's. */
  lemma LiveDecision(q: Request, src: Sources, tracks: seq<Track>, id: int)
    requires Asks(q, src, tracks) && id in q.decisionOf
    ensures q.decisionOf[id] in q.decisions
  {
    hide Collected;
    DecisionAt(q.existing, src, tracks, id);
    var s := Collected(q.existing, src, tracks);
    var k :| 0 <= k < |s.order| && s.order[k] == id;
    assert q.decisions[k] == q.decisionOf[id];
  }

  predicate SameGeometry(a: ExistingFormatRef, b: ExistingFormatRef) {
    a.width == b.width && a.height == b.height && a.hpad == b.hpad && a.vpad == b.vpad
  }

  /** A track that keeps its artwork finds, after the rewrite, through its own new entry, the bytes that its
      own old entry led to, also where it shares them with other tracks; for every format whose frames are
      usable, unless the shard they are in is rewritten and they could not be read. It has the geometry that
      it had exactly when the first track to keep the same frames had the same, since their key leaves it out. */
  lemma OwnArtSurvives(q: Request, src: Sources, tracks: seq<Track>, disk: Disk, u: Update, i: nat, f: nat, utf8: Bytes -> string)
    requires Asks(q, src, tracks) && Plain(q.existing)
    requires Sane(q) && Reflects(q.env, disk) && u.Answers(q, disk) && i < |u.LiveTracks(q)|
    requires var id := u.LiveTracks(q)[i].track;
      && id in q.decisionOf && q.decisionOf[id].Preserves()
      && var own := q.decisionOf[id].existing.value.formats;
      && f in own
      && (forall e | e in q.existing && SameFrames(e.formats, own) :: f in KnownRefs(q.env, e))
      && (f in u.plan.rewrite && u.plan.rewrite[f] == own[f].filename ==>
            var bytes := ReadFrame(disk, own[f].filename, own[f].offset, own[f].size); bytes.Some? && |bytes.value| == own[f].size)
    ensures var own := q.decisionOf[u.LiveTracks(q)[i].track].existing.value.formats[f];
      var got := ReadBack(u.rewrite, q.startId + i, utf8);
      && got.Some? && f in got.value.formats
      && var ref := got.value.formats[f];
      && ref.size == own.size
      && ReadFrame(Committed(u.rewrite), ref.filename, ref.offset, ref.size) == ReadFrame(disk, own.filename, own.offset, own.size)
      && var first := FirstPreserved(q.decisions, u.LiveTracks(q)[i].asset);
      && first.Some? && f in first.value.formats
      && ((ref.width, ref.height, ref.hpad, ref.vpad) == (own.width, own.height, own.hpad, own.vpad)
          <==> SameGeometry(first.value.formats[f], own))
  {
    hide Asks;
    hide KnownRefs;
    hide FirstPreserved;
    hide ReadFrame;
    hide Update.Answers;
    hide Sane;
    hide ReadBack;
    hide Committed;
    hide Live;
    var t := u.LiveTracks(q)[i];
    var d := q.decisionOf[t.track];
    LiveDecision(q, src, tracks, t.track);
    assert t in u.LiveTracks(q);
    LiveExactly(q.tracks, q.decisionOf, u.gallery, t.track, t.asset);
    KeptInstead(q, src, tracks, d);
    AssetsSeparate(q, src, tracks);
    var first := FirstPreserved(q.decisions, t.asset).value;
    assert SameFrame(first.formats[f], d.existing.value.formats[f]);
    WholeIfRead(q, disk, first.formats[f]);
    PreservedArtSurvives(q, disk, u, i, f, utf8);
  }

  lemma WholeIfRead(q: Request, disk: Disk, ref: ExistingFormatRef)
    requires Reflects(q.env, disk)
    ensures var bytes := ReadFrame(disk, ref.filename, ref.offset, ref.size);
            bytes.Some? && |bytes.value| == ref.size ==> q.env.WholeFrame(ref).Some?
  {
    hide ReadFrame;
  }

  lemma {:induction false} SomeMade(decisions: seq<Decision>, d: Decision)
    requires d in decisions && d.kind.NewFromPc? && d.asset.Some? && d.art.Some?
    ensures ArtOf(decisions, d.asset.value).Some?
  {
    var n := |decisions| - 1;
    if decisions[n] != d {
      assert decisions == decisions[..n] + [decisions[n]];
      SomeMade(decisions[..n], d);
    }
  }

  /** A track whose artwork is made anew gets it from the image of its own file, also where tracks share an
      asset, if no two images have one digest. */
  lemma OwnImageUsed(q: Request, src: Sources, tracks: seq<Track>, i: nat)
    requires Asks(q, src, tracks) && LastOf(tracks, i) && (forall a, b :: src.digest(a) == src.digest(b) ==> a == b)
    ensures var t := tracks[i];
      && t.id in q.decisionOf
      && (q.decisionOf[t.id].kind.NewFromPc? ==>
            q.decisionOf[t.id].asset.Some? && ArtOf(q.decisions, q.decisionOf[t.id].asset.value) == OwnArt(src, t))
  {
    hide Collected;
    hide Linked;
    hide Decided;
    hide PreservedAsset;
    var t := tracks[i];
    LastDecides(q.existing, src, tracks, i);
    DecidedIff(q.existing, src, t);
    var d := q.decisionOf[t.id];
    if d.kind.NewFromPc? {
      LiveDecision(q, src, tracks, t.id);
      SomeMade(q.decisions, d);
      var c := MadeBy(q.decisions, d.asset.value);
      var j := DecisionFrom(q, src, tracks, c);
      DecidedIff(q.existing, src, tracks[j]);
    }
  }

  /** A track that had artwork has no entry after the rewrite exactly when it was to be cleared, or its file
      is there without an image and it was not to be kept, or its frames could not be kept or made. */
  lemma LosesArtworkIff(q: Request, src: Sources, tracks: seq<Track>, disk: Disk, u: Update, i: nat)
    requires Asks(q, src, tracks) && u.Answers(q, disk) && LastOf(tracks, i) && Linked(q.existing, tracks[i]).Some?
    ensures var t := tracks[i];
      && t.id in q.decisionOf
      && ((forall e | e in u.rewrite.source.entries :: e.dbTrackId != t.id)
          <==> t.hint == ClearArtwork
               || (t.hint == NoHint && src.FileOf(t.id).Some? && OwnArt(src, t).None?)
               || (q.decisionOf[t.id].asset.Some? && q.decisionOf[t.id].asset.value !in u.gallery))
  {
    hide Update.Answers;
    hide Collected;
    hide Linked;
    hide Decided;
    hide PreservedAsset;
    var t := tracks[i];
    LastDecides(q.existing, src, tracks, i);
    DecidedIff(q.existing, src, t);
    TrackHasEntryIff(q, disk, u, t.id);
    assert q.tracks[i] in q.tracks;
  }
}
