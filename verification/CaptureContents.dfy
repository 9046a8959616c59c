/** What staging puts into the cache, and what a capture hands the writer. */
module CaptureContents {
  import opened Outcomes
  import opened PlaylistRows
  import opened PlaylistOverlay
  import opened CommitExact
  import opened CacheModel
  import opened PlaylistSaves

  /** Live record `i` is the last one with its id. */
  predicate LastLive(c: Cache, i: int) {
    && 0 <= i < |c.library| && c.library[i] in c.rows && TrackId(c.rows[c.library[i]]) != 0
    && forall j | i < j < |c.library| ::
         (if c.library[j] in c.rows then TrackId(c.rows[c.library[j]]) else 0) != TrackId(c.rows[c.library[i]])
  }

  /** A captured track has every staged value of its id and otherwise the live one, without the path
      of a pending image; staged values go to the last record with the id. */
  lemma CapturedField(c: Cache, i: nat, key: string)
    requires c.loaded && i < |c.library| && c.library[i] in c.rows
    ensures |Capture(c).tracks| == |c.library|
    ensures var row := c.rows[c.library[i]];
      var staged := c.StagedFor(TrackId(row));
      Field(Capture(c).tracks[i], key)
      == if key == PENDING_ART then None
         else if LastLive(c, i) && key in staged then Some(staged[key].after)
         else Field(row, key)
  {
    hide TrackId;
    hide LivePlaylists;
    var tracks := LiveTracks(c);
    AppliedAs(tracks, c, i);
    NoId();
    assert forall j | 0 <= j < |tracks| :: TrackId(tracks[j]) == if c.library[j] in c.rows then TrackId(c.rows[c.library[j]]) else 0;
    if LastLive(c, i) { assert LastWithId(tracks, i); }
    if LastWithId(tracks, i) { assert LastLive(c, i); }
    assert LastWithId(tracks, i) <==> LastLive(c, i);
  }

  lemma NoId()
    ensures TrackId(map[]) == 0
  {
  }

  /** A capture hands over exactly the staged images, and the playlists that are shown; of a library
      that is not loaded, no tracks and no playlists. */
  lemma CapturedRest(c: Cache, id: int, dataset: int)
    ensures Capture(c).artwork == c.artwork
    ensures !c.loaded ==> Capture(c).tracks == [] && Capture(c).playlists == []
    ensures c.loaded && OncePerKey(c.playlists) && id != 0 ==>
              ViewAt(Capture(c).playlists, id, dataset)
              == if Find(c.playlists, id, dataset).Some? then Some(Content(Find(c.playlists, id, dataset).value))
                 else Held(c.buckets.At(dataset), id, dataset)
  {
    hide View;
    hide Find;
    hide Held;
    if c.loaded && OncePerKey(c.playlists) && id != 0 {
      ShownByKey(c, id, dataset);
    }
  }

  /** The staged field of an id, if there is one. */
  function StagedField(c: Cache, id: int, key: string): Option<Change> {
    if key in c.StagedFor(id) then Some(c.StagedFor(id)[key]) else None
  }

  /** One track: its record has the new values, and they are staged for its id, each with what the
      field held before it was first staged. */
  lemma EditTrackAt(c: Cache, t: nat, changes: Changes, s: nat, id: int, key: string)
    requires HasId(c, t) && s in c.rows
    ensures var d := EditTrack(c, t, changes);
      && d.rows.Keys == c.rows.Keys
      && Field(d.rows[s], key) == (if s == t && key in changes then Some(changes[key]) else Field(c.rows[s], key))
      && StagedField(d, id, key)
         == if id == TrackId(c.rows[t]) && key in changes then
              Some(Change(if StagedField(c, id, key).Some? then StagedField(c, id, key).value.before else Field(c.rows[t], key),
                          changes[key]))
            else StagedField(c, id, key)
  {
    hide TrackId;
  }

  /** `update_track_flags`, leaving ids alone: afterwards each edited record has the new values; they
      are staged for its id; and nothing else has changed. */
  lemma {:induction false} FlagsAt(c: Cache, targets: seq<nat>, changes: Changes, s: nat, id: int, key: string)
    requires KeepsIds(changes) && s in c.rows
    ensures var d := EditTracks(c, targets, changes);
      && d.rows.Keys == c.rows.Keys && TrackId(d.rows[s]) == TrackId(c.rows[s])
      && Field(d.rows[s], key)
         == (if s in targets && HasId(c, s) && key in changes then Some(changes[key]) else Field(c.rows[s], key))
      && (if key in changes && IdIn(c, targets, id) then
            && StagedField(d, id, key).Some? && StagedField(d, id, key).value.after == changes[key]
            && (StagedField(c, id, key).Some? ==> StagedField(d, id, key).value.before == StagedField(c, id, key).value.before)
          else StagedField(d, id, key) == StagedField(c, id, key))
  {
    hide TrackId;
    hide EditTrack;
    hide Cache.StagedFor;
    if targets != [] {
      var front, t := targets[..|targets| - 1], targets[|targets| - 1];
      FlagsAt(c, front, changes, s, id, key);
      var before := EditTracks(c, front, changes);
      assert forall x :: x in targets <==> x in front || x == t;
      if t in c.rows { FlagsIds(c, front, changes, t); }
      if HasId(before, t) {
        EditTrackAt(before, t, changes, s, id, key);
        EditKeepsId(before, t, changes, s);
      } else {
        NotEdited(before, t, changes);
      }
      IdMore(c, front, t, id);
      assert targets == front + [t];
    }
  }

  lemma NotEdited(c: Cache, t: nat, changes: Changes)
    requires !HasId(c, t)
    ensures EditTrack(c, t, changes) == c
  {
  }

  lemma EditKeepsId(c: Cache, t: nat, changes: Changes, s: nat)
    requires KeepsIds(changes) && s in c.rows
    ensures s in EditTrack(c, t, changes).rows && TrackId(EditTrack(c, t, changes).rows[s]) == TrackId(c.rows[s])
  {
    hide TrackId;
    SameId(c.rows[s], changes);
  }

  lemma {:induction false} FlagsIds(c: Cache, targets: seq<nat>, changes: Changes, s: nat)
    requires KeepsIds(changes) && s in c.rows
    ensures var d := EditTracks(c, targets, changes); s in d.rows && TrackId(d.rows[s]) == TrackId(c.rows[s])
  {
    hide TrackId;
    hide EditTrack;
    if targets != [] {
      var front := targets[..|targets| - 1];
      FlagsIds(c, front, changes, s);
      EditKeepsId(EditTracks(c, front, changes), targets[|targets| - 1], changes, s);
    }
  }

  /** Some target has this id. */
  predicate IdIn(c: Cache, targets: seq<nat>, id: int) {
    exists t :: t in targets && HasId(c, t) && TrackId(c.rows[t]) == id
  }

  lemma IdMore(c: Cache, front: seq<nat>, t: nat, id: int)
    ensures IdIn(c, front + [t], id) <==> IdIn(c, front, id) || (HasId(c, t) && TrackId(c.rows[t]) == id)
  {
    hide TrackId;
    if IdIn(c, front, id) {
      var x :| x in front && HasId(c, x) && TrackId(c.rows[x]) == id;
      assert x in front + [t];
    }
    if HasId(c, t) && TrackId(c.rows[t]) == id {
      assert t in front + [t];
    }
  }

  /** What a field held before it was first staged: what the first edited record with the id had. */
  lemma {:induction false} FlagsOriginal(c: Cache, targets: seq<nat>, changes: Changes, i: nat, key: string)
    requires KeepsIds(changes) && key in changes && i < |targets| && HasId(c, targets[i])
    requires forall j | 0 <= j < i && HasId(c, targets[j]) :: TrackId(c.rows[targets[j]]) != TrackId(c.rows[targets[i]])
    requires StagedField(c, TrackId(c.rows[targets[i]]), key) == None
    ensures var id := TrackId(c.rows[targets[i]]);
            StagedField(EditTracks(c, targets, changes), id, key)
            == Some(Change(Field(c.rows[targets[i]], key), changes[key]))
  {
    hide TrackId;
    hide EditTrack;
    hide Cache.StagedFor;
    var front, t := targets[..|targets| - 1], targets[|targets| - 1];
    var first, id := targets[i], TrackId(c.rows[targets[i]]);
    var before := EditTracks(c, front, changes);
    assert forall j | 0 <= j < |front| :: front[j] == targets[j];
    FlagsAt(c, front, changes, first, id, key);
    if i < |front| {
      FlagsOriginal(c, front, changes, i, key);
      if t in c.rows { FlagsIds(c, front, changes, t); }
      FlagsRows(c, front, changes);
      if HasId(before, t) {
        EditTrackAt(before, t, changes, t, id, key);
      } else {
        NotEdited(before, t, changes);
      }
    } else {
      assert first !in front;
      assert !IdIn(c, front, id);
      assert HasId(before, t);
      EditTrackAt(before, t, changes, t, id, key);
    }
  }

  lemma {:induction false} FlagsRows(c: Cache, targets: seq<nat>, changes: Changes)
    ensures EditTracks(c, targets, changes).rows.Keys == c.rows.Keys
  {
    if targets != [] {
      FlagsRows(c, targets[..|targets| - 1], changes);
    }
  }

  /** `update_track_artwork`: afterwards the image is staged for the id of every target, every other id
      has what it had, and each target's record carries the path; nothing else has changed. */
  lemma {:induction false} ArtAt(c: Cache, targets: seq<nat>, path: string, s: nat, id: int, key: string)
    requires s in c.rows
    ensures var d := EditArtworks(c, targets, path);
      && d.rows.Keys == c.rows.Keys && TrackId(d.rows[s]) == TrackId(c.rows[s])
      && (id in d.artwork <==> id in c.artwork || IdIn(c, targets, id))
      && (id in d.artwork ==> d.artwork[id] == if IdIn(c, targets, id) then path else c.artwork[id])
      && Field(d.rows[s], key)
         == (if s in targets && HasId(c, s) && key == PENDING_ART then Some(Text(path)) else Field(c.rows[s], key))
  {
    hide TrackId;
    hide EditArtwork;
    if targets != [] {
      var front, t := targets[..|targets| - 1], targets[|targets| - 1];
      ArtAt(c, front, path, s, id, key);
      if t in c.rows { ArtAt(c, front, path, t, id, key); }
      assert forall x :: x in targets <==> x in front || x == t;
      EditArtworkAt(EditArtworks(c, front, path), t, path, s, id, key);
      IdMore(c, front, t, id);
      assert targets == front + [t];
    }
  }

  lemma EditArtworkAt(c: Cache, t: nat, path: string, s: nat, id: int, key: string)
    requires s in c.rows
    ensures var d := EditArtwork(c, t, path);
      && d.rows.Keys == c.rows.Keys && TrackId(d.rows[s]) == TrackId(c.rows[s])
      && (id in d.artwork <==> id in c.artwork || (HasId(c, t) && id == TrackId(c.rows[t])))
      && (id in d.artwork ==> d.artwork[id] == if HasId(c, t) && id == TrackId(c.rows[t]) then path else c.artwork[id])
      && Field(d.rows[s], key) == if s == t && HasId(c, t) && key == PENDING_ART then Some(Text(path)) else Field(c.rows[s], key)
  {
    hide TrackId;
    if t in c.rows {
      var pending: Changes := map[PENDING_ART := Text(path)];
      assert c.rows[t][PENDING_ART := Text(path)] == c.rows[t] + pending;
      SameId(c.rows[t], pending);
    }
  }

  lemma {:induction false} AnyEditedIff(c: Cache, targets: seq<nat>, changes: Changes)
    requires KeepsIds(changes)
    ensures AnyEdited(c, targets, changes) <==> exists t :: t in targets && HasId(c, t)
  {
    hide TrackId;
    hide EditTrack;
    if targets != [] {
      var front, t := targets[..|targets| - 1], targets[|targets| - 1];
      AnyEditedIff(c, front, changes);
      FlagsRows(c, front, changes);
      if t in c.rows { FlagsIds(c, front, changes, t); }
      assert HasId(EditTracks(c, front, changes), t) <==> HasId(c, t);
      assert forall x :: x in targets <==> x in front || x == t;
    }
  }

  lemma {:induction false} AnyArtworkIff(c: Cache, targets: seq<nat>, path: string)
    ensures AnyArtwork(c, targets, path) <==> exists t :: t in targets && HasId(c, t)
    ensures EditArtworks(c, targets, path).rows.Keys == c.rows.Keys
  {
    hide TrackId;
    hide EditArtwork;
    if targets != [] {
      var front, t := targets[..|targets| - 1], targets[|targets| - 1];
      AnyArtworkIff(c, front, path);
      if t in c.rows { ArtAt(c, front, path, t, 0, ""); }
      assert HasId(EditArtworks(c, front, path), t) <==> HasId(c, t);
      assert forall x :: x in targets <==> x in front || x == t;
      EditArtworkKeys(EditArtworks(c, front, path), t, path);
    }
  }

  lemma EditArtworkKeys(c: Cache, t: nat, path: string)
    ensures EditArtwork(c, t, path).rows.Keys == c.rows.Keys
  {
  }

  /** `update_track_flags` as a whole, for changes that leave ids alone. */
  lemma FlagsStaged(c: Cache, targets: seq<nat>, changes: Changes, s: nat, id: int, key: string)
    requires KeepsIds(changes) && s in c.rows
    ensures var d := Apply(c, Flags(targets, changes));
      && d == c.(rows := d.rows, edits := d.edits, revision := d.revision) && d.rows.Keys == c.rows.Keys
      && d.revision == (if changes != map[] && exists t :: t in targets && HasId(c, t) then c.revision + 1 else c.revision)
      && Field(d.rows[s], key)
         == (if s in targets && HasId(c, s) && key in changes then Some(changes[key]) else Field(c.rows[s], key))
      && (if key in changes && IdIn(c, targets, id) then
            StagedField(d, id, key).Some? && StagedField(d, id, key).value.after == changes[key]
            && (StagedField(c, id, key).Some? ==> StagedField(d, id, key).value.before == StagedField(c, id, key).value.before)
          else StagedField(d, id, key) == StagedField(c, id, key))
  {
    hide HasId;
    hide IdIn;
    hide EditTracks;
    FlagsAt(c, targets, changes, s, id, key);
    AnyEditedIff(c, targets, changes);
    EditsStage(c, targets, changes);
    EditsKeepRevision(c, targets, changes);
    EditsKeepRest(c, targets, changes);
  }

  lemma {:induction false} EditsKeepRest(c: Cache, targets: seq<nat>, changes: Changes)
    ensures var d := EditTracks(c, targets, changes); d == c.(rows := d.rows, edits := d.edits)
  {
    if targets != [] {
      EditsKeepRest(c, targets[..|targets| - 1], changes);
    }
  }

  lemma {:induction false} ArtKeepsRest(c: Cache, targets: seq<nat>, path: string)
    ensures var d := EditArtworks(c, targets, path); d == c.(rows := d.rows, artwork := d.artwork)
  {
    if targets != [] {
      ArtKeepsRest(c, targets[..|targets| - 1], path);
    }
  }

  /** `update_track_artwork` as a whole. */
  lemma ArtStaged(c: Cache, targets: seq<nat>, path: string, s: nat, id: int, key: string)
    requires s in c.rows
    ensures var d := Apply(c, Art(targets, path));
      && d == c.(rows := d.rows, artwork := d.artwork, revision := d.revision) && d.rows.Keys == c.rows.Keys
      && d.revision == (if exists t :: t in targets && HasId(c, t) then c.revision + 1 else c.revision)
      && (id in d.artwork <==> id in c.artwork || IdIn(c, targets, id))
      && (id in d.artwork ==> d.artwork[id] == if IdIn(c, targets, id) then path else c.artwork[id])
      && Field(d.rows[s], key)
         == (if s in targets && HasId(c, s) && key == PENDING_ART then Some(Text(path)) else Field(c.rows[s], key))
  {
    hide HasId;
    hide IdIn;
    hide EditArtworks;
    ArtAt(c, targets, path, s, id, key);
    AnyArtworkIff(c, targets, path);
    ArtKeepsRest(c, targets, path);
  }
}
