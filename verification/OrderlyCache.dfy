/** What keeps the library cache in order, so that committing keeps what it shows. */
module OrderlyCache {
  import opened Outcomes
  import opened PlaylistRows
  import opened PlaylistOverlay
  import opened PlaylistTags
  import opened CacheModel

  /** A cache whose staged edits a commit keeps: live rows have the staged changes, committed
      playlists carry their datasets, and staged ones can be filed, each new one under its own id. */
  ghost predicate Orderly(c: Cache) {
    && Distinct(c) && FaithfulRows(c) && c.loaded && c.buckets.OwnTags()
    && Apart(c.buckets, c.playlists) && (forall row | row in c.playlists :: Fileable(row))
  }

  /** A library that was parsed in order: distinct tracks, and every playlist tagged. */
  ghost predicate OrderlyLibrary(library: Library) {
    && Distinct(Cache(true, library.rows, library.library, library.buckets, [], map[], map[], 0))
    && library.buckets.OwnTags()
  }

  /** A save whose rows can be filed, a new one having an id of its own. */
  ghost predicate SoundSave(c: Cache, row: Row, newId: int) {
    forall t | t in SaveTargets(Named(row, newId), Data(c)) :: Fileable(Counted(t)) && OwnId(c.buckets, c.playlists, t)
  }

  ghost predicate OwnId(b: Buckets, staged: seq<Row>, t: Row) {
    && (DATASET !in t ==> Unused(b, Id(t)))
    && (forall other | other in staged && (DATASET in other <==> DATASET !in t) :: Id(other) != Id(t))
  }

  ghost predicate IsCounted(x: Row, targets: seq<Row>) {
    exists t :: t in targets && x == Counted(t)
  }

  lemma CountedTag(row: Row)
    ensures DATASET in Counted(row) <==> DATASET in row
    ensures Id(Counted(row)) == Id(row) && Dataset(Counted(row)) == Dataset(row)
  {
  }

  lemma StageApart(b: Buckets, staged: seq<Row>, t: Row)
    requires Apart(b, staged) && OwnId(b, staged, t)
    ensures Apart(b, Stage(staged, t))
    ensures forall x | x in Stage(staged, t) :: x in staged || x == Counted(t)
  {
    hide Index;
    hide Counted;
    hide Unused;
    hide OncePerKey;
    hide Id;
    hide Dataset;
    CountedTag(t);
    StageOne(staged, t);
    var row := Counted(t);
    IndexSpec(staged, Id(row), {Dataset(row)});
    assert forall x | x in Stage(staged, t) :: x in staged || x == row;
  }

  lemma StageOne(staged: seq<Row>, t: Row)
    requires OncePerKey(staged)
    ensures OncePerKey(Stage(staged, t))
  {
    hide Index;
    hide Counted;
    IndexSpec(staged, Id(Counted(t)), {Dataset(Counted(t))});
  }

  /** Staging rows that are all new, or all tagged. */
  lemma {:induction false} StageAllApart(b: Buckets, staged: seq<Row>, targets: seq<Row>)
    requires Apart(b, staged) && forall t | t in targets :: OwnId(b, staged, t)
    requires forall t, u | t in targets && u in targets :: DATASET in t <==> DATASET in u
    ensures Apart(b, StageAll(staged, targets))
    ensures forall x | x in StageAll(staged, targets) :: x in staged || IsCounted(x, targets)
  {
    hide Stage;
    hide Apart;
    hide Unused;
    hide Counted;
    hide Id;
    if targets != [] {
      var front, t := targets[..|targets| - 1], targets[|targets| - 1];
      assert forall u | u in front :: u in targets;
      StageAllApart(b, staged, front);
      var before := StageAll(staged, front);
      assert OwnId(b, staged, t);
      forall other | other in before && (DATASET in other <==> DATASET !in t) ensures Id(other) != Id(t) {
        if other !in staged {
          var u :| u in front && other == Counted(u);
          CountedTag(u);
        }
      }
      StageApart(b, before, t);
    }
  }

  lemma {:induction false} DisplayTagged(row: Row, data: Option<Buckets>, origins: seq<Origin>)
    ensures forall t | t in DisplayTargets(row, data, origins) :: DATASET in t
  {
    hide FindLive;
    hide Described;
    if origins != [] {
      var n := |origins| - 1;
      DisplayTagged(row, data, origins[..n]);
      if Usable(origins[n]).Some? {
        EditTagged(row, data, Usable(origins[n]).value);
      }
    }
  }

  lemma EditTagged(row: Row, data: Option<Buckets>, o: Origin)
    ensures DATASET in EditAt(row, data, o)
  {
    hide FindLive;
  }

  /** What one save stages is either a single row or all tagged. */
  lemma SavedAlike(row: Row, data: Option<Buckets>, t: Row, u: Row)
    requires t in SaveTargets(row, data) && u in SaveTargets(row, data)
    ensures DATASET in t <==> DATASET in u
  {
    hide WithKnownOrigin;
    hide DisplayTargets;
    hide IsCategory;
    hide IsPodcast;
    var origins := if DISPLAY_ORIGINS in row && row[DISPLAY_ORIGINS].Origins? then row[DISPLAY_ORIGINS].origins else [];
    DisplayTagged(row, data, origins);
  }

  lemma SaveOrderly(c: Cache, row: Row, newId: int)
    requires Orderly(c) && SoundSave(c, row, newId)
    ensures Orderly(SavePlaylist(c, row, newId))
  {
    hide SaveTargets;
    hide StageAll;
    hide Apart;
    hide Fileable;
    hide OwnId;
    hide Counted;
    hide FaithfulRows;
    var targets := SaveTargets(Named(row, newId), Data(c));
    forall t, u | t in targets && u in targets ensures DATASET in t <==> DATASET in u {
      SavedAlike(Named(row, newId), Data(c), t, u);
    }
    StageAllApart(c.buckets, c.playlists, targets);
    SameTracks(c, SavePlaylist(c, row, newId));
  }

  /** Faithfulness is about tracks only. */
  lemma SameTracks(c: Cache, d: Cache)
    requires Distinct(c) && FaithfulRows(c)
    requires d.rows == c.rows && d.library == c.library && (d.edits == c.edits || d.edits == map[])
    ensures Distinct(d) && FaithfulRows(d)
  {
    hide TrackId;
  }

  lemma {:induction false} WithoutKept(rows: seq<Row>, id: int, dataset: int, bucket: int)
    ensures forall x | x in Without(rows, id, dataset, bucket) :: x in rows
    ensures OncePerKey(rows) ==> OncePerKey(Without(rows, id, dataset, bucket))
  {
    hide Matches;
    if rows != [] {
      var front, last := rows[..|rows| - 1], rows[|rows| - 1];
      WithoutKept(front, id, dataset, bucket);
      assert forall i | 0 <= i < |front| :: front[i] == rows[i];
      if OncePerKey(rows) {
        forall x | x in front ensures Id(x) != Id(last) || Dataset(x) != Dataset(last) {
          var i :| 0 <= i < |front| && front[i] == x;
        }
      }
    }
  }

  lemma {:induction false} RenamedKept(rows: seq<Row>, name: string, x: Row)
    requires x in Renamed(rows, name)
    ensures exists row :: row in rows && Id(row) == Id(x) && Dataset(row) == Dataset(x)
  {
    hide Truthy;
    if rows != [] {
      var front, last := rows[..|rows| - 1], rows[|rows| - 1];
      if x in Renamed(front, name) {
        RenamedKept(front, name, x);
        var row :| row in front && Id(row) == Id(x) && Dataset(row) == Dataset(x);
        assert row in rows;
      } else {
        TitleKept(last, name);
        assert last in rows;
      }
    }
  }

  lemma TitleKept(row: Row, name: string)
    ensures Id(row[TITLE := Text(name)]) == Id(row) && Dataset(row[TITLE := Text(name)]) == Dataset(row)
  {
  }

  lemma FewerApart(b: Buckets, staged: seq<Row>, fewer: Buckets, kept: seq<Row>)
    requires Apart(b, staged) && OncePerKey(kept) && forall row | row in kept :: row in staged
    requires forall id | Unused(b, id) :: Unused(fewer, id)
    ensures Apart(fewer, kept)
  {
    hide Unused;
  }

  lemma RemoveOrderly(c: Cache, id: int, dataset: int)
    requires Orderly(c)
    ensures Orderly(RemovePlaylist(c, id, dataset))
  {
    hide AnyMaster;
    hide Without;
    hide FaithfulRows;
    hide Fileable;
    hide Apart;
    hide OncePerKey;
    var d := RemovePlaylist(c, id, dataset);
    if d != c {
      WithoutKept(c.playlists, id, dataset, 0);
      WithoutKept(c.buckets.regular, id, dataset, 2);
      WithoutKept(c.buckets.podcast, id, dataset, 3);
      WithoutKept(c.buckets.smart, id, dataset, 5);
      ApartOnce(c.buckets, c.playlists);
      FewerApart(c.buckets, c.playlists, d.buckets, d.playlists);
      SameTracks(c, d);
    }
  }

  lemma ApartOnce(b: Buckets, staged: seq<Row>)
    requires Apart(b, staged)
    ensures OncePerKey(staged)
  {
  }

  lemma RenameOrderly(c: Cache, name: string)
    requires Orderly(c)
    ensures Orderly(RenameMaster(c, name))
  {
    hide Renamed;
    hide FaithfulRows;
    hide Fileable;
    hide Apart;
    hide HasMaster;
    var d := RenameMaster(c, name);
    forall x | x in d.buckets.regular
      ensures exists row :: row in c.buckets.regular && Id(row) == Id(x) && Dataset(row) == Dataset(x)
    {
      RenamedKept(c.buckets.regular, name, x);
    }
    forall x | x in d.buckets.podcast
      ensures exists row :: row in c.buckets.podcast && Id(row) == Id(x) && Dataset(row) == Dataset(x)
    {
      RenamedKept(c.buckets.podcast, name, x);
    }
    ApartOnce(c.buckets, c.playlists);
    FewerApart(c.buckets, c.playlists, d.buckets, d.playlists);
    SameTracks(c, d);
  }

  lemma TracksOrderly(c: Cache, d: Cache)
    requires Orderly(c) && Distinct(d) && FaithfulRows(d)
    requires d.loaded && d.buckets == c.buckets && d.playlists == c.playlists
    ensures Orderly(d)
  {
    hide FaithfulRows;
    hide Distinct;
    hide Apart;
    hide Fileable;
  }

  lemma {:induction false} EditsKeepPlaylists(c: Cache, targets: seq<nat>, changes: Changes)
    ensures var d := EditTracks(c, targets, changes); d.playlists == c.playlists && d.buckets == c.buckets && d.artwork == c.artwork
  {
    if targets != [] {
      EditsKeepPlaylists(c, targets[..|targets| - 1], changes);
    }
  }

  lemma {:induction false} ArtKeepsPlaylists(c: Cache, targets: seq<nat>, path: string)
    ensures var d := EditArtworks(c, targets, path); d.playlists == c.playlists && d.buckets == c.buckets && d.edits == c.edits
  {
    if targets != [] {
      ArtKeepsPlaylists(c, targets[..|targets| - 1], path);
    }
  }

  /** Every operation that edits live records, and saves what can be filed, keeps the cache in order. */
  lemma ApplyOrderly(c: Cache, e: Edit)
    requires Orderly(c) && !e.Commit? && Proper(c, e) && (e.Save? ==> SoundSave(c, e.row, e.newId))
    ensures Orderly(Apply(c, e))
  {
    hide FaithfulRows;
    hide Distinct;
    hide Apart;
    hide Fileable;
    hide EditTracks;
    hide EditArtworks;
    hide SavePlaylist;
    hide RemovePlaylist;
    hide RenameMaster;
    hide SoundSave;
    hide Proper;
    hide OncePerKey;
    match e {
      case Flags(targets, changes) =>
        ApplyFaithful(c, e);
        EditsKeepPlaylists(c, targets, changes);
        TracksOrderly(c, Apply(c, e));
      case Art(targets, path) =>
        ApplyFaithful(c, e);
        ArtKeepsPlaylists(c, targets, path);
        TracksOrderly(c, Apply(c, e));
      case Save(row, newId) => SaveOrderly(c, row, newId);
      case Remove(id, dataset) => RemoveOrderly(c, id, dataset);
      case Rename(name) => RenameOrderly(c, name);
      case Drop =>
        SameTracks(c, Discard(c));
        NothingApart(c.buckets);
    }
  }

  lemma NothingApart(b: Buckets)
    ensures Apart(b, [])
  {
  }

  lemma ReloadOrderly(c: Cache, library: Library)
    requires OrderlyLibrary(library)
    ensures Orderly(Reloaded(c, library))
  {
    hide TrackId;
    NothingApart(library.buckets);
  }

  /** An accepted commit keeps the cache in order, and keeps what it showed: the same playlists, new
      ones under the dataset they were filed in. */
  lemma CommitOrderly(c: Cache)
    requires Orderly(c)
    ensures Orderly(Committed(c)) && !Committed(c).HasPending()
    ensures forall id, dataset ::
      ViewAt(LivePlaylists(Committed(c)), id, dataset) == ViewAt(TagAll(LivePlaylists(c)), id, dataset)
  {
    hide FaithfulRows;
    hide Distinct;
    hide Apart;
    hide Fileable;
    hide CommitAll;
    hide ViewAt;
    hide View;
    CommitPlaylists(c, 0, 0);
    SameTracks(c, Committed(c));
    NothingApart(Committed(c).buckets);
    TagView(c.buckets, c.playlists);
    forall id, dataset
      ensures ViewAt(LivePlaylists(Committed(c)), id, dataset) == ViewAt(TagAll(LivePlaylists(c)), id, dataset)
    {
      CommitPlaylists(c, id, dataset);
    }
  }

  lemma NamedKept(row: Row, newId: int)
    requires DATASET !in row
    ensures var named := Named(row, newId);
      && DATASET !in named && (DISPLAY_ORIGINS in named <==> DISPLAY_ORIGINS in row)
      && (IsEdit(named) <==> IsEdit(row)) && (Truthy(named, MASTER) <==> Truthy(row, MASTER))
      && Described(named) == named
  {
    var named := Named(row, newId);
    DescribedOnce(row);
    assert DescriptionOf(named) == DescriptionOf(Described(row));
    assert forall key | key !in {ID, DESCRIPTION, ALBUM} :: Get(named, key) == Get(row, key);
  }

  /** A new row can be filed. */
  lemma NewFileable(row: Row)
    requires Described(row) == row && Id(row) != 0 && DATASET !in row && !IsEdit(row) && !Truthy(row, MASTER)
    ensures Fileable(Counted(row))
  {
    hide Described;
    hide DescriptionOf;
    var counted := Counted(row);
    CountedCanonical(row, Id(row));
    NotesCanonical(counted, Id(row), Num(Target(counted)), Text(""), Text(""));
    TaggedCanonical(counted, Target(counted));
    CountedTag(row);
    assert forall key | key != CHILD_COUNT :: Get(counted, key) == Get(row, key);
  }

  lemma TaggedCanonical(row: Row, dataset: int)
    requires Described(row) == row && Counted(row) == row
    ensures var tagged := row[DATASET := Num(dataset)];
            Described(tagged) == tagged && Counted(tagged) == tagged
  {
    var tagged := row[DATASET := Num(dataset)];
    assert DescriptionOf(tagged) == DescriptionOf(row);
    assert forall key | key != DATASET :: Get(tagged, key) == Get(row, key);
  }

  /** A row for one dataset of the mirrored pair can be filed. */
  lemma MirrorFileable(row: Row, dataset: int)
    requires Described(row) == row && Id(row) != 0 && !Truthy(row, MASTER) && !IsPodcast(row) && dataset in {2, 3}
    ensures Fileable(Counted(RowFor(row, dataset))) && Id(RowFor(row, dataset)) == Id(row) && DATASET in RowFor(row, dataset)
  {
    hide Described;
    hide DescriptionOf;
    hide Counted;
    var tagged := row[DATASET := Num(dataset)][RESULT_KEY := Text(ResultKeyFor(dataset))];
    var noted := SetDefault(tagged, SOURCE, Text(SourceFor(tagged, dataset)));
    NotesCanonical(row, Id(row), Num(dataset), Text(ResultKeyFor(dataset)), Text(SourceFor(tagged, dataset)));
    assert Described(noted) == noted;
    assert forall key | key !in {DATASET, RESULT_KEY, SOURCE} :: Get(noted, key) == Get(row, key);
    assert TextAt(noted, SOURCE) == TextAt(row, SOURCE) || TextAt(noted, SOURCE) == Some(SourceFor(tagged, dataset));
    CountedCanonical(noted, Id(row));
    CountedNotes(noted);
    var x := Counted(noted);
    assert Get(x, DATASET) == Some(Num(dataset));
    assert Get(x, MASTER) == Get(row, MASTER) && Get(x, PODCAST) == Get(row, PODCAST) && Get(x, SOURCE) == Get(noted, SOURCE);
    assert !IsPodcast(x);
    assert Tagged(x) == x;
  }

  lemma CountedNotes(row: Row)
    ensures forall key | key != CHILD_COUNT :: Get(Counted(row), key) == Get(row, key)
  {
  }

  /** Creating a playlist is such a save: no dataset yet, an id that nothing else has, and none of
      the notes of the merged display. */
  lemma NewPlaylistSound(c: Cache, row: Row, newId: int)
    requires c.loaded && DATASET !in row && DISPLAY_ORIGINS !in row && !IsEdit(row) && !Truthy(row, MASTER)
    requires var id := Id(Named(row, newId));
             id != 0 && Unused(c.buckets, id) && forall other | other in c.playlists :: Id(other) != id
    ensures SoundSave(c, row, newId)
  {
    hide Described;
    hide DescriptionOf;
    hide Fileable;
    hide Counted;
    hide RowFor;
    hide Unused;
    hide IsCategory;
    hide IsPodcast;
    hide Named;
    hide LiveOrigins;
    hide Truthy;
    var named := Named(row, newId);
    NamedKept(row, newId);
    assert WithKnownOrigin(named, Data(c)) == Some(named);
    NewFileable(named);
    if !IsPodcast(named) {
      MirrorFileable(named, 2);
      MirrorFileable(named, 3);
    }
    assert SaveTargets(named, Data(c)) == [named] || SaveTargets(named, Data(c)) == [RowFor(named, 2), RowFor(named, 3)];
  }
}
