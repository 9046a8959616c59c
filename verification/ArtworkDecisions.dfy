/** `_collect_track_artwork_decisions`: what becomes of the artwork of each track. */
module ArtworkDecisions {
  import opened Outcomes
  import opened Bytes
  import opened ArtworkTypes
  import opened IthmbPlanner
  import opened ArtworkKeys

  datatype Hint = ClearArtwork | KeepArtwork | NoHint

  /** `links` are the image ids that a track names, in the order in which they are looked at. */
  datatype Track = Track(id: int, hint: Hint, links: seq<int>)

  /** The files that tracks come from: `key` normalizes a path, `extract` gives the image in or beside it. */
  datatype Sources = Sources(
    pathOf: map<int, string>,
    there: string -> bool,
    key: string -> string,
    extract: string -> Option<Bytes>,
    digest: Bytes -> string
  ) {
    /** The path of a track, if it has one and the file is there. */
    function FileOf(id: int): Option<string> {
      if id in pathOf && pathOf[id] != "" && there(pathOf[id]) then Some(pathOf[id]) else None
    }

    /** Paths with one key lead to one image. */
    ghost predicate Consistent() {
      forall p, q | key(p) == key(q) :: extract(p) == extract(q)
    }
  }

  type Entries = seq<ExistingEntry>

  /** Image ids are the keys of the dictionary of entries. */
  ghost predicate Keyed(existing: Entries) {
    forall i, j | 0 <= i < j < |existing| :: existing[i].imgId != existing[j].imgId
  }

  /** The last entry for a track: later ones take its place in the index. */
  function BySong(existing: Entries, id: int): Option<ExistingEntry> {
    if existing == [] then None
    else
      var last := existing[|existing| - 1];
      if last.songId != 0 && last.songId == id then Some(last) else BySong(existing[..|existing| - 1], id)
  }

  function ByImage(existing: Entries, id: int): Option<ExistingEntry> {
    if existing == [] then None
    else
      var last := existing[|existing| - 1];
      if last.imgId == id then Some(last) else ByImage(existing[..|existing| - 1], id)
  }

  /** The first link that is not zero. */
  function LinkOf(links: seq<int>): int {
    if links == [] then 0 else if links[0] != 0 then links[0] else LinkOf(links[1..])
  }

  /** `_resolve_existing_art_entry` */
  function Linked(existing: Entries, t: Track): Option<ExistingEntry> {
    var song := BySong(existing, t.id);
    if t.id == 0 then None
    else if song.Some? then song
    else if LinkOf(t.links) != 0 then ByImage(existing, LinkOf(t.links))
    else None
  }

  /** Images that were extracted, by the key of their file. */
  type Cache = map<string, Option<Bytes>>

  ghost function Kept(kind: DecisionKind, e: ExistingEntry): Decision {
    Decision(kind, Some(PreservedAsset(e)), Some(e), None)
  }

  function Cleared(e: Option<ExistingEntry>): Decision {
    Decision(ClearArt, None, e, None)
  }

  /** Whether a track's file has to be looked into. */
  predicate Looked(existing: Entries, src: Sources, t: Track) {
    && t.id != 0 && t.hint != ClearArtwork && !(t.hint == KeepArtwork && Linked(existing, t).Some?)
    && src.FileOf(t.id).Some?
  }

  function Cached(existing: Entries, src: Sources, cache: Cache, t: Track): Cache {
    if !Looked(existing, src, t) then cache
    else
      var path := src.FileOf(t.id).value;
      if src.key(path) in cache then cache else cache[src.key(path) := src.extract(path)]
  }

  /** The decision for a track, given what its file is known to hold. */
  ghost function Decided(existing: Entries, src: Sources, t: Track, art: Option<Bytes>): Decision {
    var e, file := Linked(existing, t), src.FileOf(t.id);
    if t.hint == ClearArtwork then Cleared(e)
    else if t.hint == KeepArtwork && e.Some? then Kept(if file.Some? then PreserveExisting else PreserveFallback, e.value)
    else if file.None? then (if e.Some? then Kept(PreserveFallback, e.value) else Cleared(e))
    else if art.None? then Cleared(e)
    else Decision(NewFromPc, Some(AssetRef("pc", src.digest(art.value))), e, art)
  }

  /** The decisions so far: those of a track stay where the first was made. */
  datatype State = State(order: seq<int>, decisionOf: map<int, Decision>, cache: Cache)

  ghost function ArtFor(existing: Entries, src: Sources, cache: Cache, t: Track): Option<Bytes> {
    var after := Cached(existing, src, cache, t);
    if Looked(existing, src, t) && src.key(src.FileOf(t.id).value) in after then after[src.key(src.FileOf(t.id).value)] else None
  }

  ghost function Collected(existing: Entries, src: Sources, tracks: seq<Track>): State {
    if tracks == [] then State([], map[], map[])
    else
      var t, s := tracks[|tracks| - 1], Collected(existing, src, tracks[..|tracks| - 1]);
      if t.id == 0 then s
      else
        State(if t.id in s.decisionOf then s.order else s.order + [t.id],
              s.decisionOf[t.id := Decided(existing, src, t, ArtFor(existing, src, s.cache, t))],
              Cached(existing, src, s.cache, t))
  }

  method IndexSongs(existing: Entries) returns (index: map<nat, nat>, entries: map<nat, ExistingEntry>)
    requires Keyed(existing)
    ensures forall id: int :: (id in index <==> BySong(existing, id).Some?)
                              && (id in index ==> index[id] in entries && Some(entries[index[id]]) == BySong(existing, id))
    ensures forall id: int :: (id in entries <==> ByImage(existing, id).Some?) && (id in entries ==> Some(entries[id]) == ByImage(existing, id))
  {
    index, entries := map[], map[];
    for i := 0 to |existing|
      invariant forall id: int :: id in index <==> BySong(existing[..i], id).Some?
      invariant forall id | id in index :: index[id] in entries && Some(entries[index[id]]) == BySong(existing[..i], id)
      invariant forall id | id in entries :: exists j :: 0 <= j < i && existing[j].imgId == id
      invariant forall id: int :: id in entries <==> ByImage(existing[..i], id).Some?
      invariant forall id | id in entries :: Some(entries[id]) == ByImage(existing[..i], id)
    {
      assert existing[..i + 1][..i] == existing[..i];
      var e := existing[i];
      assert e.imgId !in entries;
      entries := entries[e.imgId := e];
      if e.songId != 0 {
        index := index[e.songId := e.imgId];
      }
    }
    assert existing[..|existing|] == existing;
  }

  method Resolve(index: map<nat, nat>, entries: map<nat, ExistingEntry>, t: Track, ghost existing: Entries) returns (r: Option<ExistingEntry>)
    requires forall id: int :: (id in index <==> BySong(existing, id).Some?)
                               && (id in index ==> index[id] in entries && Some(entries[index[id]]) == BySong(existing, id))
    requires forall id: int :: (id in entries <==> ByImage(existing, id).Some?) && (id in entries ==> Some(entries[id]) == ByImage(existing, id))
    ensures r == Linked(existing, t)
  {
    hide BySong;
    hide ByImage;
    if t.id == 0 {
      return None;
    }
    if t.id in index {
      return Some(entries[index[t.id]]);
    }
    var link := LinkOf(t.links);
    if link != 0 && link in entries {
      return Some(entries[link]);
    }
    return None;
  }

  method CollectDecisions(existing: Entries, src: Sources, tracks: seq<Track>)
    returns (order: seq<int>, decisionOf: map<int, Decision>)
    requires Keyed(existing)
    ensures order == Collected(existing, src, tracks).order && decisionOf == Collected(existing, src, tracks).decisionOf
  {
    hide BySong;
    hide ByImage;
    hide PreservedAsset;
    hide Linked;
    var index, entries := IndexSongs(existing);
    order, decisionOf := [], map[];
    var extracted: Cache := map[];
    for i := 0 to |tracks|
      invariant State(order, decisionOf, extracted) == Collected(existing, src, tracks[..i])
    {
      assert tracks[..i + 1][..i] == tracks[..i];
      var t := tracks[i];
      if t.id == 0 {
        continue;
      }
      var e := Resolve(index, entries, t, existing);
      var decision: Decision;
      decision, extracted := DecideOne(existing, src, extracted, t, e);
      if t.id !in decisionOf {
        order := order + [t.id];
      }
      decisionOf := decisionOf[t.id := decision];
    }
    assert tracks[..|tracks|] == tracks;
  }

  /** The decision for one track. */
  method DecideOne(ghost existing: Entries, src: Sources, before: Cache, t: Track, e: Option<ExistingEntry>)
    returns (d: Decision, extracted: Cache)
    requires t.id != 0 && e == Linked(existing, t)
    ensures extracted == Cached(existing, src, before, t)
    ensures d == Decided(existing, src, t, ArtFor(existing, src, before, t))
  {
    hide Linked;
    hide PreservedAsset;
    extracted := before;
    if t.hint == ClearArtwork {
      return Cleared(e), extracted;
    }
    var path := if t.id in src.pathOf then src.pathOf[t.id] else "";
    if t.hint == KeepArtwork && e.Some? {
      var asset := PreservedAssetRef(e.value);
      var kind := if path != "" && src.there(path) then PreserveExisting else PreserveFallback;
      return Decision(kind, Some(asset), e, None), extracted;
    }
    if path == "" || !src.there(path) {
      if e.Some? {
        var asset := PreservedAssetRef(e.value);
        return Decision(PreserveFallback, Some(asset), e, None), extracted;
      }
      return Cleared(e), extracted;
    }
    var key := src.key(path);
    if key !in extracted {
      extracted := extracted[key := src.extract(path)];
    }
    var art := extracted[key];
    if art.None? {
      return Cleared(e), extracted;
    }
    return Decision(NewFromPc, Some(AssetRef("pc", src.digest(art.value))), e, art), extracted;
  }

  /** The decisions in order, as the values of a dictionary. */
  function InOrder(order: seq<int>, decisionOf: map<int, Decision>): (r: seq<Decision>)
    requires forall i | 0 <= i < |order| :: order[i] in decisionOf
    ensures |r| == |order| && forall i | 0 <= i < |r| :: r[i] == decisionOf[order[i]]
  {
    seq(|order|, i requires 0 <= i < |order| => decisionOf[order[i]])
  }

  predicate HasId(tracks: seq<Track>, id: int) {
    exists i :: 0 <= i < |tracks| && tracks[i].id == id
  }

  lemma HasIdLast(tracks: seq<Track>, id: int)
    requires tracks != []
    ensures HasId(tracks, id) <==> HasId(tracks[..|tracks| - 1], id) || tracks[|tracks| - 1].id == id
  {
    var front := tracks[..|tracks| - 1];
    assert forall i | 0 <= i < |front| :: front[i] == tracks[i];
    if HasId(front, id) {
      var i :| 0 <= i < |front| && front[i].id == id;
      assert tracks[i].id == id;
    }
  }

  lemma NoTracks()
    ensures forall id :: !HasId([], id)
  {
  }

  /** Each id is in the order once. */
  ghost predicate Listed(s: State) {
    && (forall id :: id in s.order <==> id in s.decisionOf)
    && (forall i, j | 0 <= i < j < |s.order| :: s.order[i] != s.order[j])
  }

  lemma ListedMore(before: State, after: State, id: int)
    requires Listed(before) && after.decisionOf.Keys == before.decisionOf.Keys + {id}
    requires after.order == if id in before.decisionOf then before.order else before.order + [id]
    ensures Listed(after)
  {
    assert forall x :: x in after.decisionOf <==> x in before.decisionOf || x == id;
    assert forall x :: x in after.order <==> x in before.order || x == id;
  }

  /** There is one decision for each track that has an id. */
  lemma {:induction false} OneDecision(existing: Entries, src: Sources, tracks: seq<Track>)
    ensures var s := Collected(existing, src, tracks);
            Listed(s) && forall id :: id in s.decisionOf <==> id != 0 && HasId(tracks, id)
  {
    hide Decided;
    hide ArtFor;
    hide Cached;
    hide HasId;
    hide Listed;
    if tracks == [] {
      NoTracks();
      assert Listed(State([], map[], map[])) by { NoneListed(); }
    } else {
      var front, t := tracks[..|tracks| - 1], tracks[|tracks| - 1];
      OneDecision(existing, src, front);
      var before, s := Collected(existing, src, front), Collected(existing, src, tracks);
      if t.id != 0 {
        assert s.decisionOf.Keys == before.decisionOf.Keys + {t.id};
        ListedMore(before, s, t.id);
      }
      forall id ensures id in s.decisionOf <==> id != 0 && HasId(tracks, id) {
        HasIdLast(tracks, id);
        assert id in before.decisionOf <==> id != 0 && HasId(front, id);
      }
    }
  }

  lemma NoneListed()
    ensures Listed(State([], map[], map[]))
  {
  }

  /** What is remembered of a file is what it, or another path to it, holds. */
  ghost predicate Remembers(src: Sources, cache: Cache) {
    forall k | k in cache :: exists p :: src.key(p) == k && cache[k] == src.extract(p)
  }

  lemma {:induction false} AllRemembered(existing: Entries, src: Sources, tracks: seq<Track>)
    ensures Remembers(src, Collected(existing, src, tracks).cache)
  {
    hide Decided;
    hide ArtFor;
    hide Looked;
    hide Cached;
    if tracks != [] {
      var front, t := tracks[..|tracks| - 1], tracks[|tracks| - 1];
      AllRemembered(existing, src, front);
      OneRemembered(existing, src, Collected(existing, src, front).cache, t);
    }
  }

  lemma OneRemembered(existing: Entries, src: Sources, cache: Cache, t: Track)
    requires Remembers(src, cache)
    ensures Remembers(src, Cached(existing, src, cache, t))
  {
    hide Linked;
    var after := Cached(existing, src, cache, t);
    forall k | k in after ensures exists p :: src.key(p) == k && after[k] == src.extract(p) {
      if k !in cache {
        var path := src.FileOf(t.id).value;
        assert src.key(path) == k && after[k] == src.extract(path);
      }
    }
  }

  /** What a track's own file holds. */
  function OwnArt(src: Sources, t: Track): Option<Bytes> {
    if src.FileOf(t.id).Some? then src.extract(src.FileOf(t.id).value) else None
  }

  lemma ArtIsOwn(existing: Entries, src: Sources, cache: Cache, t: Track)
    requires src.Consistent() && Remembers(src, cache)
    ensures Decided(existing, src, t, ArtFor(existing, src, cache, t)) == Decided(existing, src, t, OwnArt(src, t)) || t.id == 0
  {
    hide Linked;
    hide PreservedAsset;
    if Looked(existing, src, t) {
      var path := src.FileOf(t.id).value;
      if src.key(path) in cache {
        var p :| src.key(p) == src.key(path) && cache[src.key(path)] == src.extract(p);
        assert src.extract(p) == src.extract(path);
      }
    }
  }

  /** The last track with an id decides, from its own file. */
  lemma {:induction false} LastDecides(existing: Entries, src: Sources, tracks: seq<Track>, i: nat)
    requires src.Consistent() && i < |tracks| && tracks[i].id != 0
    requires forall j | i < j < |tracks| :: tracks[j].id != tracks[i].id
    ensures var s := Collected(existing, src, tracks);
            tracks[i].id in s.decisionOf && s.decisionOf[tracks[i].id] == Decided(existing, src, tracks[i], OwnArt(src, tracks[i]))
  {
    hide Decided;
    hide ArtFor;
    hide Cached;
    var front := tracks[..|tracks| - 1];
    if i < |tracks| - 1 {
      LastDecides(existing, src, front, i);
    } else {
      AllRemembered(existing, src, front);
      ArtIsOwn(existing, src, Collected(existing, src, front).cache, tracks[i]);
    }
  }

  /** Exactly when a track's artwork is taken from its file, kept, or cleared. It is kept when it has some,
      unless it is to be cleared, or its file is there and it is not to be kept; and then it is made anew
      from the file, or cleared if the file has none. */
  lemma DecidedIff(existing: Entries, src: Sources, t: Track)
    ensures var d, e, file, art := Decided(existing, src, t, OwnArt(src, t)), Linked(existing, t), src.FileOf(t.id), OwnArt(src, t);
      && d.existing == e
      && (d.Preserves() <==> e.Some? && (t.hint == KeepArtwork || (t.hint == NoHint && file.None?)))
      && (d.Preserves() ==> d.asset == Some(PreservedAsset(e.value)) && (d.kind.PreserveExisting? <==> file.Some?))
      && (d.kind.NewFromPc? <==> art.Some? && (t.hint == NoHint || (t.hint == KeepArtwork && e.None?)))
      && (d.kind.NewFromPc? ==> d.art == art && d.asset == Some(AssetRef("pc", src.digest(art.value))))
      && (d.kind.ClearArt? <==> t.hint == ClearArtwork || (art.None? && (e.None? || (t.hint == NoHint && file.Some?))))
      && (d.kind.ClearArt? ==> d.asset == None)
  {
    hide Linked;
    hide PreservedAsset;
  }

  /** Entry `i` is the last one that names the track. */
  predicate LastSong(existing: Entries, id: int, e: ExistingEntry, i: int) {
    0 <= i < |existing| && existing[i] == e && e.songId == id && forall j | i < j < |existing| :: existing[j].songId != id
  }

  lemma {:induction false} BySongIff(existing: Entries, id: int, e: ExistingEntry)
    ensures BySong(existing, id) == Some(e)
            <==> id != 0 && exists i :: LastSong(existing, id, e, i)
  {
    if existing != [] {
      var n := |existing| - 1;
      var front := existing[..n];
      BySongIff(front, id, e);
      if i :| LastSong(front, id, e, i) {
        assert existing[n].songId != id ==> LastSong(existing, id, e, i);
      }
      if i :| LastSong(existing, id, e, i) {
        assert i < n ==> LastSong(front, id, e, i);
      }
      assert existing[n] == e && e.songId == id ==> LastSong(existing, id, e, n);
    }
  }

  lemma {:induction false} ByImageIn(existing: Entries, id: int)
    ensures ByImage(existing, id).Some? <==> exists i :: 0 <= i < |existing| && existing[i].imgId == id
    ensures ByImage(existing, id).Some? ==> ByImage(existing, id).value in existing && ByImage(existing, id).value.imgId == id
  {
    if existing != [] {
      var front := existing[..|existing| - 1];
      ByImageIn(front, id);
      assert forall i | 0 <= i < |front| :: front[i] == existing[i];
    }
  }

  /** The entry of a track is one that names the track, the last if there are several; if none does, the
      one that the track's first link names. */
  lemma LinkedIff(existing: Entries, t: Track, e: ExistingEntry)
    requires Keyed(existing)
    ensures Linked(existing, t) == Some(e)
            <==> && t.id != 0 && e in existing
                 && (if exists x :: x in existing && x.songId == t.id
                     then exists i :: LastSong(existing, t.id, e, i)
                     else exists k :: FirstLink(t.links, k) && t.links[k] == e.imgId)
  {
    hide BySong;
    hide ByImage;
    hide LinkOf;
    BySongIff(existing, t.id, e);
    SongOrNone(existing, t.id);
    LinkIs(t.links);
    ByImageIn(existing, LinkOf(t.links));
  }

  /** Link `k` is the first that is not zero. */
  predicate FirstLink(links: seq<int>, k: int) {
    0 <= k < |links| && links[k] != 0 && forall j | 0 <= j < k :: links[j] == 0
  }

  lemma {:induction false} SongOrNone(existing: Entries, id: int)
    ensures BySong(existing, id).Some? <==> id != 0 && exists x :: x in existing && x.songId == id
  {
    if existing != [] {
      SongOrNone(existing[..|existing| - 1], id);
      assert existing == existing[..|existing| - 1] + [existing[|existing| - 1]];
    }
  }

  lemma {:induction false} LinkIs(links: seq<int>)
    ensures if LinkOf(links) == 0 then forall k | 0 <= k < |links| :: links[k] == 0
            else exists k :: FirstLink(links, k) && links[k] == LinkOf(links)
  {
    if links != [] && links[0] != 0 {
      assert FirstLink(links, 0);
    } else if links != [] {
      LinkIs(links[1..]);
      assert forall k | 0 < k < |links| :: links[k] == links[1..][k - 1];
      if LinkOf(links) != 0 {
        var k :| FirstLink(links[1..], k) && links[1..][k] == LinkOf(links);
        assert FirstLink(links, k + 1);
      }
    }
  }
}
