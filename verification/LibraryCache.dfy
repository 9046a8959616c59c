/** `iTunesDBCache`: the parsed library, the edits staged on it, and their revision. */
module LibraryCache {
  import opened Outcomes
  import opened PlaylistRows
  import opened PlaylistOverlay
  import opened CacheModel
  import Keys

  class ItunesDbCache {
    var loaded: bool
    var rows: map<nat, Row>
    var library: seq<nat>
    var buckets: Buckets
    var playlists: seq<Row>
    var edits: map<int, Staged>
    var artwork: map<int, string>
    var revision: nat

    ghost function Value(): Cache
      reads this
    {
      Cache(loaded, rows, library, buckets, playlists, edits, artwork, revision)
    }

    constructor ()
      ensures Value() == Cache(false, map[], [], Buckets([], [], []), [], map[], map[], 0)
    {
      loaded, rows, library, buckets, playlists := false, map[], [], Buckets([], [], []), [];
      edits, artwork, revision := map[], map[], 0;
    }

    /** `update_track_flags` */
    method UpdateTrackFlags(targets: seq<nat>, changes: Changes)
      modifies this
      ensures Value() == Apply(old(Value()), Flags(targets, changes))
    {
      hide TrackId;
      ghost var before := Value();
      var edited := false;
      for i := 0 to |targets|
        invariant Value() == EditTracks(before, targets[..i], changes)
        invariant edited == (changes != map[] && AnyEdited(before, targets[..i], changes))
      {
        assert targets[..i + 1][..i] == targets[..i];
        var t := targets[i];
        if t in rows && TrackId(rows[t]) != 0 {
          var id := TrackId(rows[t]);
          var row, staged := StageChanges(rows[t], if id in edits then edits[id] else map[], changes);
          edits := edits[id := staged];
          rows := rows[t := row];
          edited := edited || changes != map[];
        }
      }
      assert targets[..|targets|] == targets;
      if edited {
        revision := revision + 1;
      }
    }

    /** The inner loop of `update_track_flags`: each field remembers its oldest original. */
    static method StageChanges(row: Row, staged: Staged, changes: Changes) returns (newRow: Row, newStaged: Staged)
      ensures newRow == row + changes && newStaged == Restaged(staged, row, changes)
    {
      hide Restaged;
      newRow, newStaged := row, staged;
      ghost var done: Changes := map[];
      NothingStaged(row, staged);
      var todo := changes.Keys;
      while todo != {}
        invariant todo <= changes.Keys
        invariant done == changes - todo
        invariant newRow == row + done && newStaged == Restaged(staged, row, done)
        decreases todo
      {
        var key :| key in todo;
        OneMoreApplied(row, done, key, changes[key]);
        OneMoreStaged(row, staged, done, key, changes[key]);
        newStaged := newStaged[key := Change(if key in newStaged then newStaged[key].before else Get(newRow, key), changes[key])];
        newRow := newRow[key := changes[key]];
        todo := todo - {key};
        done := done[key := changes[key]];
      }
      assert done == changes;
    }

    static lemma NothingStaged(row: Row, staged: Staged)
      ensures row + map[] == row && Restaged(staged, row, map[]) == staged
    {
    }

    static lemma OneMoreApplied(row: Row, done: Changes, key: string, value: Value)
      requires key !in done
      ensures row + done[key := value] == (row + done)[key := value] && Get(row + done, key) == Get(row, key)
    {
    }

    static lemma OneMoreStaged(row: Row, staged: Staged, done: Changes, key: string, value: Value)
      requires key !in done
      ensures var now := Restaged(staged, row, done);
              Restaged(staged, row, done[key := value])
              == now[key := Change(if key in now then now[key].before else Get(row, key), value)]
    {
      hide Get;
    }

    /** `update_track_artwork` */
    method UpdateTrackArtwork(targets: seq<nat>, path: string)
      modifies this
      ensures Value() == Apply(old(Value()), Art(targets, path))
    {
      hide TrackId;
      ghost var before := Value();
      var edited := false;
      for i := 0 to |targets|
        invariant Value() == EditArtworks(before, targets[..i], path)
        invariant edited == AnyArtwork(before, targets[..i], path)
      {
        assert targets[..i + 1][..i] == targets[..i];
        var t := targets[i];
        if t in rows && TrackId(rows[t]) != 0 {
          artwork := artwork[TrackId(rows[t]) := path];
          rows := rows[t := rows[t][PENDING_ART := Text(path)]];
          edited := true;
        }
      }
      assert targets[..|targets|] == targets;
      if edited {
        revision := revision + 1;
      }
    }

    /** `get_playlists` */
    method GetPlaylists() returns (result: seq<Row>)
      ensures result == LivePlaylists(Value())
    {
      result := [];
      if loaded {
        hide WithOrigin;
        hide Lay;
        var regular := WithOrigins(buckets.regular, 2);
        var podcast := WithOrigins(buckets.podcast, 3);
        var smart := WithOrigins(buckets.smart, 5);
        result := regular + podcast + smart;
        for i := 0 to |playlists|
          invariant result == LayAll(ShowAll(buckets), playlists[..i])
        {
          assert playlists[..i + 1][..i] == playlists[..i];
          result := LayRow(result, playlists[i]);
        }
        assert playlists[..|playlists|] == playlists;
      }
    }

    /** One staged row laid over the rows shown. */
    static method LayRow(rows: seq<Row>, row: Row) returns (r: seq<Row>)
      ensures r == Lay(rows, row)
    {
      var index := FindIndex(rows, Id(row), {Dataset(row)});
      IndexSpec(rows, Id(row), {Dataset(row)});
      if Id(row) != 0 && Dataset(row) != 0 && index.Some? {
        r := rows[index.value := row];
      } else {
        r := rows + [row];
      }
    }

    static method WithOrigins(rows: seq<Row>, dataset: int) returns (r: seq<Row>)
      ensures r == ShowBucket(rows, dataset)
    {
      hide WithOrigin;
      r := [];
      for i := 0 to |rows|
        invariant r == ShowBucket(rows[..i], dataset)
      {
        assert rows[..i + 1][..i] == rows[..i];
        r := r + [WithOrigin(rows[i], dataset)];
      }
      assert rows[..|rows|] == rows;
    }

    /** `save_user_playlist` */
    method SaveUserPlaylist(row: Row, newId: int)
      modifies this
      ensures Value() == Apply(old(Value()), Save(row, newId))
      ensures old(OncePerKey(playlists)) ==> OncePerKey(playlists)
    {
      hide SaveTargets;
      hide Described;
      hide Stage;
      hide OncePerKey;
      var named := Described(row);
      if Id(named) == 0 {
        named := named[ID := Num(newId)];
      }
      var targets := SaveTargets(named, if loaded then Some(buckets) else None);
      if targets == [] {
        return;
      }
      ghost var before := playlists;
      for i := 0 to |targets|
        invariant Value() == old(Value()).(playlists := StageAll(before, targets[..i]))
      {
        assert targets[..i + 1][..i] == targets[..i];
        playlists := StageRow(playlists, targets[i]);
      }
      assert targets[..|targets|] == targets;
      revision := revision + 1;
      if OncePerKey(before) {
        StageOnce(before, targets);
      }
    }

    static method StageRow(staged: seq<Row>, row: Row) returns (r: seq<Row>)
      ensures r == Stage(staged, row)
    {
      hide Counted;
      var target := Counted(row);
      var index := FindIndex(staged, Id(target), {Dataset(target)});
      IndexSpec(staged, Id(target), {Dataset(target)});
      if index.Some? {
        r := staged[index.value := target];
      } else {
        r := staged + [target];
      }
    }

    static method Kept(rows: seq<Row>, id: int, dataset: int, bucket: int) returns (r: seq<Row>)
      ensures r == Without(rows, id, dataset, bucket)
    {
      hide Matches;
      r := [];
      for i := 0 to |rows|
        invariant r == Without(rows[..i], id, dataset, bucket)
      {
        assert rows[..i + 1][..i] == rows[..i];
        if !Matches(rows[i], id, dataset, bucket) {
          r := r + [rows[i]];
        }
      }
      assert rows[..|rows|] == rows;
    }

    /** `remove_user_playlist` */
    method RemoveUserPlaylist(id: int, dataset: int) returns (removed: bool)
      modifies this
      ensures Value() == Apply(old(Value()), Remove(id, dataset))
      ensures removed <==> playlists != old(playlists) || buckets != old(buckets)
    {
      hide Matches;
      hide Without;
      var b := if loaded then buckets else Buckets([], [], []);
      if AnyMaster(playlists, id, dataset, 0) || AnyMaster(b.regular, id, dataset, 2)
         || AnyMaster(b.podcast, id, dataset, 3) || AnyMaster(b.smart, id, dataset, 5) {
        return false;
      }
      var kept := Kept(playlists, id, dataset, 0);
      removed := kept != playlists;
      playlists := kept;
      if loaded {
        var regular := Kept(b.regular, id, dataset, 2);
        var podcast := Kept(b.podcast, id, dataset, 3);
        var smart := Kept(b.smart, id, dataset, 5);
        removed := removed || Buckets(regular, podcast, smart) != buckets;
        buckets := Buckets(regular, podcast, smart);
      }
      if removed {
        revision := revision + 1;
      }
    }

    static method RenameIn(rows: seq<Row>, name: string) returns (r: seq<Row>, renamed: bool)
      ensures r == Renamed(rows, name) && (renamed <==> HasMaster(rows))
    {
      hide Truthy;
      r, renamed := [], false;
      for i := 0 to |rows|
        invariant r == Renamed(rows[..i], name)
        invariant renamed <==> HasMaster(rows[..i])
      {
        assert rows[..i + 1][..i] == rows[..i];
        assert rows[..i + 1] == rows[..i] + [rows[i]];
        if Truthy(rows[i], MASTER) {
          r, renamed := r + [rows[i][TITLE := Text(name)]], true;
        } else {
          r := r + [rows[i]];
        }
      }
      assert rows[..|rows|] == rows;
    }

    /** `rename_master_playlist` */
    method RenameMasterPlaylist(name: string) returns (renamed: bool)
      modifies this
      ensures Value() == Apply(old(Value()), Rename(name))
    {
      if !loaded {
        return false;
      }
      var regular, inRegular := RenameIn(buckets.regular, name);
      var podcast, inPodcast := RenameIn(buckets.podcast, name);
      buckets := buckets.(regular := regular, podcast := podcast);
      renamed := inRegular || inPodcast;
      if renamed {
        revision := revision + 1;
      }
    }

    /** One bucket while a row is filed. */
    static method FileInBucket(rows: seq<Row>, row: Row, here: bool) returns (r: seq<Row>)
      ensures r == FileIn(rows, row, here)
    {
      var index := FindIndex(rows, Id(row), {0, Dataset(row)});
      IndexSpec(rows, Id(row), {0, Dataset(row)});
      r := rows;
      if index.Some? {
        if here {
          r := r[index.value := row];
        } else {
          r := r[..index.value] + r[index.value + 1..];
        }
      } else if here {
        r := r + [row];
      }
    }

    /** `commit_user_playlists` */
    method CommitUserPlaylists()
      modifies this`buckets, this`playlists
      ensures playlists == []
      ensures buckets == if loaded then CommitAll(old(buckets), old(playlists)) else old(buckets)
    {
      hide Described;
      hide FileIn;
      hide WithKnownOrigin;
      hide Counted;
      hide Target;
      hide Truthy;
      if !loaded {
        playlists := [];
        return;
      }
      ghost var before := buckets;
      for i := 0 to |playlists|
        invariant playlists == old(playlists)
        invariant buckets == CommitAll(before, playlists[..i])
      {
        assert playlists[..i + 1][..i] == playlists[..i];
        var pending := playlists[i];
        if Id(pending) != 0 && !Truthy(pending, MASTER) {
          var known := WithKnownOrigin(Described(pending), Some(buckets));
          if known.Some? {
            var row := Counted(known.value);
            var target := Target(row);
            row := SetDefault(SetDefault(row, DATASET, Num(target)), RESULT_KEY, Text(ResultKeyFor(target)));
            var regular := FileInBucket(buckets.regular, row, target == 2);
            var podcast := FileInBucket(buckets.podcast, row, target == 3);
            var smart := FileInBucket(buckets.smart, row, target == 5);
            buckets := Buckets(regular, podcast, smart);
          }
        }
      }
      assert playlists[..|playlists|] == playlists;
      playlists := [];
    }

    /** `discard_quick_write_state` */
    method DiscardQuickWriteState()
      modifies this
      ensures Value() == Apply(old(Value()), Drop)
    {
      playlists, edits, artwork := [], map[], map[];
      revision := revision + 1;
    }

    /** `reload_after_itunesdb_write`; `parsed` is what loading the device's database gives. */
    method ReloadAfterWrite(parsed: Library)
      modifies this
      ensures Value() == Reloaded(old(Value()), parsed)
    {
      DiscardQuickWriteState();
      loaded, rows, library, buckets := true, parsed.rows, parsed.library, parsed.buckets;
    }

    /** `commit_quick_write_state` */
    method CommitQuickWriteState(expected: nat) returns (ok: bool)
      modifies this
      ensures ok <==> expected == old(revision)
      ensures Value() == Apply(old(Value()), Commit(expected))
    {
      hide CommitAll;
      if expected != revision {
        return false;
      }
      CommitUserPlaylists();
      edits, artwork := map[], map[];
      revision := revision + 1;
      ok := true;
    }

    /** `capture_quick_write_state` and `_capture_cache_for_itunesdb_write`: staged edits applied
        to copies of the live tracks. */
    method CaptureForWrite() returns (image: Image, captured: nat)
      ensures image == Capture(Value()) && captured == revision
    {
      hide TrackId;
      hide Afters;
      hide LivePlaylists;
      var tracks := CopyLibrary();
      ghost var originals := tracks;
      tracks := ApplyEdits(tracks);
      var playlistRows := GetPlaylists();
      for i := 0 to |tracks|
        invariant |tracks| == |originals|
        invariant forall j | 0 <= j < i :: tracks[j] == Applied(originals, edits, j)
        invariant forall j: nat | i <= j < |tracks| ::
          tracks[j] == if LastWithId(originals, j) && TrackId(originals[j]) in edits
                       then originals[j] + Afters(edits[TrackId(originals[j])]) else originals[j]
      {
        tracks := tracks[i := tracks[i] - {PENDING_ART}];
      }
      image, captured := Image(tracks, playlistRows, artwork), revision;
    }

    /** Staged edits go to the last track with their id. */
    method ApplyEdits(originals: seq<Row>) returns (tracks: seq<Row>)
      ensures |tracks| == |originals|
      ensures forall i: nat | i < |tracks| ::
        tracks[i] == if LastWithId(originals, i) && TrackId(originals[i]) in edits
                     then originals[i] + Afters(edits[TrackId(originals[i])]) else originals[i]
    {

      tracks := originals;
      var lastOf := LastById(tracks);
      var order := Keys.Listed(edits.Keys);
      NoneApplied(originals, edits);
      for n := 0 to |order|
        invariant AppliedSoFar(originals, edits, edits.Keys - Members(order[..n]), tracks)
      {
        var id := order[n];
        assert order[..n + 1] == order[..n] + [id];
        ghost var todo := edits.Keys - Members(order[..n]);
        assert edits.Keys - Members(order[..n + 1]) == todo - {id};
        AppliedMore(originals, edits, todo, tracks, lastOf, id);
        if id in lastOf {
          var i := lastOf[id];
          tracks := tracks[i := tracks[i] + Afters(edits[id])];
        }
      }
      assert order[..|order|] == order;
      assert edits.Keys - Members(order) == {};
      AllApplied(originals, edits, tracks);
    }

    static function Members(order: seq<int>): set<int> {
      set x | x in order
    }

    static ghost predicate AppliedSoFar(originals: seq<Row>, edits: map<int, Staged>, todo: set<int>, tracks: seq<Row>) {
      && |tracks| == |originals|
      && forall i: nat | i < |tracks| ::
           tracks[i] == if TrackId(originals[i]) !in todo && LastWithId(originals, i) && TrackId(originals[i]) in edits
                        then originals[i] + Afters(edits[TrackId(originals[i])]) else originals[i]
    }

    static lemma NoneApplied(originals: seq<Row>, edits: map<int, Staged>)
      ensures AppliedSoFar(originals, edits, edits.Keys, originals)
    {
      hide TrackId;
    }

    static lemma AllApplied(originals: seq<Row>, edits: map<int, Staged>, tracks: seq<Row>)
      requires AppliedSoFar(originals, edits, {}, tracks)
      ensures |tracks| == |originals|
      ensures forall i: nat | i < |tracks| ::
        tracks[i] == if LastWithId(originals, i) && TrackId(originals[i]) in edits
                     then originals[i] + Afters(edits[TrackId(originals[i])]) else originals[i]
    {
      hide TrackId;
    }

    static ghost predicate IsLastById(tracks: seq<Row>, r: map<int, nat>) {
      && (forall id | id in r :: r[id] < |tracks| && LastWithId(tracks, r[id]) && TrackId(tracks[r[id]]) == id)
      && (forall i | 0 <= i < |tracks| && LastWithId(tracks, i) :: TrackId(tracks[i]) in r && r[TrackId(tracks[i])] == i)
    }

    static lemma AppliedMore(originals: seq<Row>, edits: map<int, Staged>, todo: set<int>, tracks: seq<Row>, lastOf: map<int, nat>, id: int)
      requires AppliedSoFar(originals, edits, todo, tracks) && IsLastById(originals, lastOf) && id in todo && todo <= edits.Keys
      ensures id in lastOf ==> lastOf[id] < |tracks|
      ensures AppliedSoFar(originals, edits, todo - {id},
                           if id in lastOf then tracks[lastOf[id] := tracks[lastOf[id]] + Afters(edits[id])] else tracks)
    {
      hide TrackId;
      hide Afters;
    }

    method CopyLibrary() returns (tracks: seq<Row>)
      ensures tracks == LiveTracks(Value())
    {
      tracks := [];
      if !loaded {
        return;
      }
      for i := 0 to |library|
        invariant |tracks| == i
        invariant forall j | 0 <= j < i :: tracks[j] == LiveTracks(Value())[j]
      {
        tracks := tracks + [if library[i] in rows then rows[library[i]] else map[]];
      }
    }

    /** `{id: track for track in tracks if id}`: the last track with each id. */
    static method LastById(tracks: seq<Row>) returns (r: map<int, nat>)
      ensures IsLastById(tracks, r)
    {
      hide TrackId;
      r := map[];
      for n := 0 to |tracks|
        invariant forall id | id in r :: 0 <= r[id] < n && TrackId(tracks[r[id]]) == id && id != 0
                                         && forall j | r[id] < j < n :: TrackId(tracks[j]) != id
        invariant forall j | 0 <= j < n && TrackId(tracks[j]) != 0 :: TrackId(tracks[j]) in r
      {
        if TrackId(tracks[n]) != 0 {
          r := r[TrackId(tracks[n]) := n];
        }
      }
    }
  }
}
