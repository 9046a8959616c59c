/** From tracks and their decisions to the entries of the new database. */
module ArtworkEntries {
  import opened Outcomes
  import opened ArtworkTypes
  import opened IthmbPlanner
  import opened ArtworkPayloads
  import IthmbWriter

  /** A track that gets an entry, and the asset it shows. */
  datatype LiveTrack = LiveTrack(track: int, asset: AssetRef)

  /** The asset a track shows in the new database, if any. */
  function Shown(track: int, decisionOf: map<int, Decision>, g: Gallery): Option<AssetRef> {
    if track == 0 || track !in decisionOf || decisionOf[track].kind.ClearArt? then None
    else
      var asset := decisionOf[track].asset;
      if asset.Some? && asset.value in g then asset else None
  }

  /** Tracks that get an entry, in order. */
  function Live(tracks: seq<int>, decisionOf: map<int, Decision>, g: Gallery): seq<LiveTrack> {
    if tracks == [] then []
    else
      var last := tracks[|tracks| - 1];
      var shown := Shown(last, decisionOf, g);
      Live(tracks[..|tracks| - 1], decisionOf, g) + (if shown.Some? then [LiveTrack(last, shown.value)] else [])
  }

  /** Entry `i` stands for live track `i`, has the id `startId + i`, and all the asset's frames. */
  ghost predicate Assembled(entries: seq<ArtworkEntry>, assetOf: map<int, AssetRef>, live: seq<LiveTrack>, g: Gallery, startId: int) {
    && |entries| == |live|
    && (forall i | 0 <= i < |live| ::
          live[i].asset in g
          && entries[i] == ArtworkEntry(startId + i, live[i].track, g[live[i].asset].srcImgSize, g[live[i].asset].formats))
    && (forall i | 0 <= i < |live| :: entries[i].imgId in assetOf && assetOf[entries[i].imgId] == live[i].asset)
  }

  method AssembleEntries(tracks: seq<int>, decisionOf: map<int, Decision>, g: Gallery, startId: int)
    returns (entries: seq<ArtworkEntry>, assetOf: map<int, AssetRef>)
    ensures Assembled(entries, assetOf, Live(tracks, decisionOf, g), g, startId)
  {
    entries, assetOf := [], map[];
    for i := 0 to |tracks|
      invariant Assembled(entries, assetOf, Live(tracks[..i], decisionOf, g), g, startId)
    {
      assert tracks[..i + 1][..i] == tracks[..i];
      var shown := Shown(tracks[i], decisionOf, g);
      if shown.Some? {
        var artwork := g[shown.value];
        assetOf := assetOf[startId + |entries| := shown.value];
        entries := entries + [ArtworkEntry(startId + |entries|, tracks[i], artwork.srcImgSize, artwork.formats)];
      }
    }
    assert tracks[..|tracks|] == tracks;
  }

  lemma {:induction false} LiveAt(tracks: seq<int>, decisionOf: map<int, Decision>, g: Gallery, t: LiveTrack)
    ensures t in Live(tracks, decisionOf, g) <==> t.track in tracks && Shown(t.track, decisionOf, g) == Some(t.asset)
  {
    hide Shown;
    if tracks != [] {
      var n := |tracks| - 1;
      assert tracks == tracks[..n] + [tracks[n]];
      LiveAt(tracks[..n], decisionOf, g, t);
    }
  }

  /** Whether a decision keeps or makes artwork. */
  predicate Shows(d: Decision) {
    match d.kind
    case NewFromPc => true
    case PreserveExisting => true
    case PreserveFallback => true
    case ClearArt => false
  }

  /** Exactly which tracks get an entry, and for which asset. */
  lemma LiveExactly(tracks: seq<int>, decisionOf: map<int, Decision>, g: Gallery, t: int, asset: AssetRef)
    ensures LiveTrack(t, asset) in Live(tracks, decisionOf, g)
            <==> t in tracks && t != 0 && t in decisionOf && Shows(decisionOf[t]) && decisionOf[t].asset == Some(asset) && asset in g
  {
    LiveAt(tracks, decisionOf, g, LiveTrack(t, asset));
  }

  /** The entries are in the order of the tracks, one for each occurrence that shows something. */
  lemma {:induction false} LiveOrder(tracks: seq<int>, decisionOf: map<int, Decision>, g: Gallery)
    ensures |Live(tracks, decisionOf, g)| <= |tracks|
    ensures (forall t | t in tracks :: Shown(t, decisionOf, g).Some?) ==>
              |Live(tracks, decisionOf, g)| == |tracks| && forall i | 0 <= i < |tracks| :: Live(tracks, decisionOf, g)[i].track == tracks[i]
  {
    hide Shown;
    if tracks != [] {
      var n := |tracks| - 1;
      assert forall t | t in tracks[..n] :: t in tracks;
      LiveOrder(tracks[..n], decisionOf, g);
      assert forall i | 0 <= i < n :: tracks[..n][i] == tracks[i];
    }
  }

  /** The formats that some entry has. */
  function FormatsIn(entries: seq<ArtworkEntry>): set<nat> {
    if entries == [] then {} else FormatsIn(entries[..|entries| - 1]) + entries[|entries| - 1].formats.Keys
  }

  function EncodedOf(e: ArtworkEntry): set<nat> {
    set f | f in e.formats && e.formats[f].Encoded?
  }

  /** The formats that some entry has new bytes for. */
  function WritableIn(entries: seq<ArtworkEntry>): set<nat> {
    if entries == [] then {} else WritableIn(entries[..|entries| - 1]) + EncodedOf(entries[|entries| - 1])
  }

  function KeptOf(e: ArtworkEntry, f: nat): set<string> {
    if f in e.formats && e.formats[f].Passthrough? then {e.formats[f].filename} else {}
  }

  /** The files in which some entry's frame of format `f` stays. */
  function ProtectedIn(entries: seq<ArtworkEntry>, f: nat): set<string> {
    if entries == [] then {} else ProtectedIn(entries[..|entries| - 1], f) + KeptOf(entries[|entries| - 1], f)
  }

  function NamesOf(protected: map<nat, set<string>>, f: nat): set<string> {
    if f in protected then protected[f] else {}
  }

  method CollectFormats(entries: seq<ArtworkEntry>) returns (all: set<nat>, writable: set<nat>, protected: map<nat, set<string>>)
    ensures all == FormatsIn(entries) && writable == WritableIn(entries)
    ensures forall f: nat :: NamesOf(protected, f) == ProtectedIn(entries, f)
  {
    hide KeptOf;
    all, writable, protected := {}, {}, map[];
    for i := 0 to |entries|
      invariant all == FormatsIn(entries[..i]) && writable == WritableIn(entries[..i])
      invariant forall f: nat :: NamesOf(protected, f) == ProtectedIn(entries[..i], f)
    {
      assert entries[..i + 1][..i] == entries[..i];
      all := all + entries[i].formats.Keys;
      writable := writable + EncodedOf(entries[i]);
      protected := Protect(protected, entries[i]);
    }
    assert entries[..|entries|] == entries;
  }

  method Protect(protected: map<nat, set<string>>, e: ArtworkEntry) returns (r: map<nat, set<string>>)
    ensures forall f: nat :: NamesOf(r, f) == NamesOf(protected, f) + KeptOf(e, f)
  {
    r := protected;
    var todo := e.formats.Keys;
    while todo != {}
      invariant todo <= e.formats.Keys
      invariant forall f: nat :: NamesOf(r, f) == NamesOf(protected, f) + (if f in todo then {} else KeptOf(e, f))
      decreases todo
    {
      var f :| f in todo;
      if e.formats[f].Passthrough? {
        r := r[f := NamesOf(r, f) + {e.formats[f].filename}];
      }
      todo := todo - {f};
    }
  }

  lemma {:induction false} FormatsCover(entries: seq<ArtworkEntry>, e: ArtworkEntry, f: nat)
    requires e in entries && f in e.formats
    ensures f in FormatsIn(entries)
    ensures e.formats[f].Encoded? ==> f in WritableIn(entries)
    ensures e.formats[f].Passthrough? ==> e.formats[f].filename in ProtectedIn(entries, f)
  {
    var n := |entries| - 1;
    if e != entries[n] {
      assert entries == entries[..n] + [entries[n]];
      FormatsCover(entries[..n], e, f);
    }
  }

  lemma AssembledConsistent(entries: seq<ArtworkEntry>, assetOf: map<int, AssetRef>, live: seq<LiveTrack>, g: Gallery, startId: int)
    requires Assembled(entries, assetOf, live, g, startId)
    ensures IthmbWriter.Consistent(entries, assetOf, SortedOf(FormatsIn(entries)), WritableIn(entries))
  {
    hide SortedOf;
    hide FormatsIn;
    hide WritableIn;
    SortedOfSpec(FormatsIn(entries));
    forall e | e in entries ensures e.imgId in assetOf && assetOf[e.imgId] in g && e.formats == g[assetOf[e.imgId]].formats {
      var i :| 0 <= i < |entries| && entries[i] == e;
    }
    forall e, f | e in entries && f in e.formats
      ensures f in FormatsIn(entries) && (e.formats[f].Encoded? ==> f in WritableIn(entries))
    {
      FormatsCover(entries, e, f);
    }
  }
}
