/** What saving, removing and renaming playlists does to what is staged and shown. */
module PlaylistSaves {
  import opened Outcomes
  import opened PlaylistRows
  import opened PlaylistOverlay
  import opened CommitExact
  import opened CacheModel

  function Field(row: Row, key: string): Option<Value> {
    if key in row then Some(row[key]) else None
  }

  /** Notes that saving sets itself: where the row is, and its description in both places. */
  const NOTES: set<string> := {ID, DATASET, RESULT_KEY, SOURCE, DESCRIPTION, ALBUM}

  lemma DescribedField(row: Row, key: string)
    requires key != DESCRIPTION && key != ALBUM
    ensures Field(Described(row), key) == Field(row, key)
  {
  }

  /** The edited row at one origin: every field of the edit, and what the edit does not have from the
      row that is there. */
  lemma EditField(row: Row, data: Option<Buckets>, o: Origin, key: string)
    requires key !in NOTES
    ensures var live := FindLive(data, Id(row), o);
            Field(EditAt(row, data, o), key)
            == if key in row && key !in DISPLAY_ONLY then Some(row[key])
               else if live.Some? then Field(live.value, key) else None
    ensures Id(EditAt(row, data, o)) == Id(row) && Dataset(EditAt(row, data, o)) == o.dataset
    ensures EditAt(row, data, o)[RESULT_KEY] == Text(o.key)
  {
    hide FindLive;
    hide Described;
    hide SourceFor;
    var live := FindLive(data, Id(row), o);
    var edited := (if live.Some? then live.value else map[]) + (row - DISPLAY_ONLY);
    var tagged := edited[ID := Num(Id(row))][DATASET := Num(o.dataset)][RESULT_KEY := Text(o.key)];
    var noted := tagged[SOURCE := Text(SourceFor(tagged, o.dataset))];
    DescribedField(noted, key);
    DescribedField(noted, ID);
    DescribedField(noted, DATASET);
    DescribedField(noted, RESULT_KEY);
  }

  lemma {:induction false} UsableOrigins(origins: seq<Origin>, x: Origin)
    ensures x in UsableIn(origins) <==> exists i :: 0 <= i < |origins| && Usable(origins[i]) == Some(x)
  {
    if origins != [] {
      var n := |origins| - 1;
      UsableOrigins(origins[..n], x);
      assert forall i | 0 <= i < n :: origins[..n][i] == origins[i];
    }
  }

  lemma DisplayStep(row: Row, data: Option<Buckets>, origins: seq<Origin>)
    requires origins != []
    ensures var n := |origins| - 1;
      var o := Usable(origins[n]);
      var new_ := o.Some? && o.value !in UsableIn(origins[..n]);
      && DisplayTargets(row, data, origins)
         == DisplayTargets(row, data, origins[..n]) + (if new_ then [EditAt(row, data, o.value)] else [])
      && UsableIn(origins) == UsableIn(origins[..n]) + (if new_ then {o.value} else {})
  {
    hide EditAt;
    hide Usable;
  }

  /** An edit of a merged row is saved once at each distinct usable origin. */
  lemma {:induction false} DisplaySaved(row: Row, data: Option<Buckets>, origins: seq<Origin>, t: Row)
    ensures t in DisplayTargets(row, data, origins) <==> exists o :: o in UsableIn(origins) && t == EditAt(row, data, o)
    ensures |DisplayTargets(row, data, origins)| == |UsableIn(origins)|
  {
    hide EditAt;
    hide Usable;
    if origins != [] {
      DisplaySaved(row, data, origins[..|origins| - 1], t);
      DisplayStep(row, data, origins);
      hide DisplayTargets;
      hide UsableIn;
    }
  }

  /** The origins that an edit was shown merged from. */
  function ShownOrigins(row: Row): seq<Origin> {
    if DISPLAY_ORIGINS in row && row[DISPLAY_ORIGINS].Origins? then row[DISPLAY_ORIGINS].origins else []
  }

  predicate IsMerged(row: Row) {
    |ShownOrigins(row)| > 1 && exists i :: 0 <= i < |ShownOrigins(row)| && ShownOrigins(row)[i].dataset in {2, 3, 5}
  }

  lemma MergedTargets(row: Row, data: Option<Buckets>)
    ensures IsMerged(row) <==> |ShownOrigins(row)| > 1 && DisplayTargets(row, data, ShownOrigins(row)) != []
  {
    hide EditAt;
    var origins := ShownOrigins(row);
    if IsMerged(row) {
      var i :| 0 <= i < |origins| && origins[i].dataset in {2, 3, 5};
      UsableOrigins(origins, Usable(origins[i]).value);
      DisplaySaved(row, data, origins, EditAt(row, data, Usable(origins[i]).value));
    }
    if DisplayTargets(row, data, origins) != [] {
      var t := DisplayTargets(row, data, origins)[0];
      DisplaySaved(row, data, origins, t);
      var o :| o in UsableIn(origins) && t == EditAt(row, data, o);
      UsableOrigins(origins, o);
      var i :| 0 <= i < |origins| && Usable(origins[i]) == Some(o);
      assert origins[i].dataset in {2, 3, 5};
    }
  }

  /** A save is refused exactly for an edit that has lost its origin when the library has none or more
      than one for its id. */
  lemma SaveRefusedIff(row: Row, data: Option<Buckets>)
    ensures SaveTargets(row, data) == []
            <==> !IsMerged(row) && IsEdit(row) && Dataset(row) == 0 && |LiveOrigins(data, Id(row))| != 1
  {
    hide DisplayTargets;
    hide LiveOrigins;
    hide RowFor;
    MergedTargets(row, data);
  }

  /** A new playlist is mirrored into both regular datasets exactly when the device has the second one
      and the row is neither smart nor a podcast; otherwise an unmerged row is staged once. */
  lemma MirroredIff(row: Row, data: Option<Buckets>)
    requires !IsMerged(row) && !IsEdit(row)
    ensures SaveTargets(row, data)
            == if data.Some? && data.value.podcast != [] && Dataset(row) in {0, 2} && !IsCategory(row) && !IsPodcast(row)
               then [RowFor(row, 2), RowFor(row, 3)] else [row]
  {
    hide DisplayTargets;
    hide LiveOrigins;
    hide RowFor;
    hide IsCategory;
    hide IsPodcast;
    MergedTargets(row, data);
  }

  lemma RowForField(row: Row, dataset: int, key: string)
    requires key !in NOTES
    ensures Field(RowFor(row, dataset), key) == Field(row, key)
    ensures Id(RowFor(row, dataset)) == Id(row) && Dataset(RowFor(row, dataset)) == dataset
  {
    hide Described;
    hide SourceFor;
    var tagged := row[DATASET := Num(dataset)][RESULT_KEY := Text(ResultKeyFor(dataset))];
    var noted := SetDefault(tagged, SOURCE, Text(SourceFor(tagged, dataset)));
    DescribedField(noted, key);
    DescribedField(noted, ID);
    DescribedField(noted, DATASET);
  }

  lemma KnownField(row: Row, data: Option<Buckets>, key: string)
    requires key !in NOTES
    ensures var known := WithKnownOrigin(row, data);
            known.Some? ==> Field(known.value, key) == Field(row, key) && Id(known.value) == Id(row)
  {
    hide LiveOrigins;
    hide SourceFor;
  }

  /** Every staged row has the values of the edit. */
  lemma SavedField(row: Row, data: Option<Buckets>, t: Row, key: string)
    requires t in SaveTargets(row, data) && key in row && key !in NOTES && key !in DISPLAY_ONLY
    ensures Field(t, key) == Some(row[key]) && Id(t) == Id(row)
  {
    hide DisplayTargets;
    hide EditAt;
    hide RowFor;
    hide WithKnownOrigin;
    hide IsCategory;
    hide IsPodcast;
    if IsMerged(row) {
      MergedTargets(row, data);
      DisplaySaved(row, data, ShownOrigins(row), t);
      var o :| o in UsableIn(ShownOrigins(row)) && t == EditAt(row, data, o);
      EditField(row, data, o, key);
    } else {
      MergedTargets(row, data);
      KnownField(row, data, key);
      var known := WithKnownOrigin(row, data).value;
      RowForField(known, 2, key);
      RowForField(known, 3, key);
    }
  }

  lemma CountedField(row: Row, key: string)
    ensures key != CHILD_COUNT ==> Field(Counted(row), key) == Field(row, key)
    ensures ITEMS in row && row[ITEMS].Items? ==> Field(Counted(row), CHILD_COUNT) == Some(Num(|row[ITEMS].items|))
    ensures Id(Counted(row)) == Id(row) && Dataset(Counted(row)) == Dataset(row)
  {
  }

  /** Staging one row: it is what is staged under its key, and every other key keeps what it had. */
  lemma StageAt(staged: seq<Row>, target: Row, id: int, dataset: int)
    ensures Find(Stage(staged, target), id, dataset)
            == if id == Id(target) && dataset == Dataset(target) then Some(Counted(target)) else Find(staged, id, dataset)
  {
    hide Index;
    hide Counted;
    CountedField(target, ID);
    var row, after := Counted(target), Stage(staged, target);
    IndexSpec(staged, Id(row), {Dataset(row)});
    IndexSpec(staged, id, {dataset});
    var own, i := Index(staged, Id(row), {Dataset(row)}), Index(staged, id, {dataset});
    if id == Id(row) && dataset == Dataset(row) {
      IndexIs(after, id, {dataset}, if own.Some? then own.value else |staged|);
    } else if i.Some? {
      IndexIs(after, id, {dataset}, i.value);
    } else {
      IndexNone(after, id, {dataset});
    }
  }

  /** Saving several rows: under each key the last row for it is staged, with its child count, and any
      other key keeps what it had. */
  lemma {:induction false} StageAllAt(staged: seq<Row>, targets: seq<Row>, id: int, dataset: int)
    ensures (forall t | t in targets :: Id(t) != id || Dataset(t) != dataset) ==>
              Find(StageAll(staged, targets), id, dataset) == Find(staged, id, dataset)
    ensures forall k | 0 <= k < |targets| && IsLast(targets, k, id, dataset) ::
              Find(StageAll(staged, targets), id, dataset) == Some(Counted(targets[k]))
  {
    hide Stage;
    hide Find;
    hide Counted;
    hide Id;
    hide Dataset;
    if targets != [] {
      var front, t := targets[..|targets| - 1], targets[|targets| - 1];
      StageAllAt(staged, front, id, dataset);
      StageAt(StageAll(staged, front), t, id, dataset);
      assert forall x | x in front :: x in targets;
      assert t in targets;
      forall k | 0 <= k < |targets| && IsLast(targets, k, id, dataset)
        ensures Find(StageAll(staged, targets), id, dataset) == Some(Counted(targets[k]))
      {
        if k < |front| {
          assert !(Id(targets[|front|]) == id && Dataset(targets[|front|]) == dataset);
          assert IsLast(front, k, id, dataset);
        }
      }
    }
  }

  /** Target `k` is the last one for the key. */
  predicate IsLast(targets: seq<Row>, k: int, id: int, dataset: int)
    requires 0 <= k < |targets|
  {
    && Id(targets[k]) == id && Dataset(targets[k]) == dataset
    && forall j | k < j < |targets| :: !(Id(targets[j]) == id && Dataset(targets[j]) == dataset)
  }

  lemma LayUntagged(rows: seq<Row>, row: Row, id: int, dataset: int)
    requires Dataset(row) == 0 || Id(row) == 0
    ensures Find(Lay(rows, row), id, dataset)
            == if Find(rows, id, dataset).Some? then Find(rows, id, dataset)
               else if id == Id(row) && dataset == Dataset(row) then Some(row) else None
  {
    hide Index;
    IndexSpec(rows, id, {dataset});
    var i, after := Index(rows, id, {dataset}), rows + [row];
    if i.Some? {
      IndexIs(after, id, {dataset}, i.value);
    } else if id == Id(row) && dataset == Dataset(row) {
      IndexIs(after, id, {dataset}, |rows|);
    } else {
      IndexNone(after, id, {dataset});
    }
  }

  lemma NoneUntagged(b: Buckets, id: int)
    ensures Find(ShowAll(b), id, 0) == None
  {
    hide Index;
    hide ShowAll;
    ShownIn(b, id, 0);
    assert b.At(0) == [];
    ShowLength([], 0);
    IndexNone(ShowBucket([], 0), id, {0});
  }

  /** What is shown for a playlist: what is staged for it, or else what the library has. */
  lemma {:induction false} LaidByKey(b: Buckets, staged: seq<Row>, id: int, dataset: int)
    requires OncePerKey(staged) && id != 0
    ensures Find(View(b, staged), id, dataset)
            == if Find(staged, id, dataset).Some? then Find(staged, id, dataset) else Find(ShowAll(b), id, dataset)
  {
    hide Lay;
    hide ShowAll;
    hide Find;
    hide Id;
    hide Dataset;
    if staged == [] {
      NothingFound(id, dataset);
    } else {
      var front, row := staged[..|staged| - 1], staged[|staged| - 1];
      assert forall i | 0 <= i < |front| :: front[i] == staged[i];
      LaidByKey(b, front, id, dataset);
      FoundLast(front, row, id, dataset);
      assert front + [row] == staged;
      if Id(row) != 0 && Dataset(row) != 0 {
        LayAt(View(b, front), row, id, dataset);
      } else {
        LayUntagged(View(b, front), row, id, dataset);
        NoneUntagged(b, id);
      }
    }
  }

  lemma NothingFound(id: int, dataset: int)
    ensures Find([], id, dataset) == None
  {
  }

  /** With one row for each key, the last one decides for its own key. */
  lemma FoundLast(front: seq<Row>, row: Row, id: int, dataset: int)
    requires OncePerKey(front + [row])
    ensures Find(front + [row], id, dataset)
            == if id == Id(row) && dataset == Dataset(row) then Some(row) else Find(front, id, dataset)
    ensures id == Id(row) && dataset == Dataset(row) ==> Find(front, id, dataset) == None
  {
    hide Index;
    hide Id;
    hide Dataset;
    var all := front + [row];
    IndexSpec(front, id, {dataset});
    var i := Index(front, id, {dataset});
    if id == Id(row) && dataset == Dataset(row) {
      forall j | 0 <= j < |front| ensures !(Id(front[j]) == id && Dataset(front[j]) in {dataset}) {
        assert all[j] == front[j] && all[|front|] == row;
      }
      IndexNone(front, id, {dataset});
      IndexIs(all, id, {dataset}, |front|);
    } else if i.Some? {
      IndexIs(all, id, {dataset}, i.value);
    } else {
      IndexNone(all, id, {dataset});
    }
  }

  /** What the library shows: the staged row for the key, or the bucket's first row with the id. */
  lemma ShownByKey(c: Cache, id: int, dataset: int)
    requires c.loaded && OncePerKey(c.playlists) && id != 0
    ensures ViewAt(LivePlaylists(c), id, dataset)
            == if Find(c.playlists, id, dataset).Some? then Some(Content(Find(c.playlists, id, dataset).value))
               else Held(c.buckets.At(dataset), id, dataset)
  {
    hide Find;
    hide View;
    hide ShowAll;
    hide Content;
    hide Held;
    LaidByKey(c.buckets, c.playlists, id, dataset);
    HeldView(c.buckets, id, dataset);
  }

  /** `save_user_playlist`: afterwards each saved key has, staged and shown, the last row saved for it
      with its child count, and every other key what it had. */
  lemma SaveShows(c: Cache, row: Row, newId: int, id: int, dataset: int)
    requires c.loaded && OncePerKey(c.playlists) && id != 0
    ensures var d, targets := SavePlaylist(c, row, newId), SaveTargets(Named(row, newId), Some(c.buckets));
      && (forall k | 0 <= k < |targets| && IsLast(targets, k, id, dataset) ::
            Find(d.playlists, id, dataset) == Some(Counted(targets[k]))
            && ViewAt(LivePlaylists(d), id, dataset) == Some(Content(Counted(targets[k]))))
      && ((forall t | t in targets :: Id(t) != id || Dataset(t) != dataset) ==>
            Find(d.playlists, id, dataset) == Find(c.playlists, id, dataset)
            && ViewAt(LivePlaylists(d), id, dataset) == ViewAt(LivePlaylists(c), id, dataset))
  {
    hide Find;
    hide StageAll;
    hide SaveTargets;
    hide Counted;
    hide Content;
    hide LivePlaylists;
    hide Held;
    hide ViewAt;
    hide OncePerKey;
    hide IsLast;
    var d, targets := SavePlaylist(c, row, newId), SaveTargets(Named(row, newId), Some(c.buckets));
    if targets == [] {
      assert d == c;
    } else {
      StageOnce(c.playlists, targets);
      StageAllAt(c.playlists, targets, id, dataset);
      ShownByKey(c, id, dataset);
      ShownByKey(d, id, dataset);
    }
  }

  /** The id of a saved row: its own, or the new one. */
  lemma NamedId(row: Row, newId: int)
    ensures Id(Named(row, newId)) == if Id(row) != 0 then Id(row) else newId
  {
    hide DescriptionOf;
    DescribedField(row, ID);
  }

  lemma NamedField(row: Row, newId: int, key: string)
    requires key !in NOTES
    ensures Field(Named(row, newId), key) == Field(row, key)
  {
    DescribedField(row, key);
  }

  /** Whether a removal is about a row: its id, and its dataset where one is given. */
  predicate IsAbout(row: Row, id: int, dataset: int, bucket: int) {
    Id(row) == id && (dataset == 0 || dataset == if Dataset(row) == 0 then bucket else Dataset(row))
  }

  lemma {:induction false} WithoutExactly(rows: seq<Row>, id: int, dataset: int, bucket: int, x: Row)
    ensures x in Without(rows, id, dataset, bucket) <==> x in rows && !IsAbout(x, id, dataset, bucket)
  {
    if rows != [] {
      WithoutExactly(rows[..|rows| - 1], id, dataset, bucket, x);
      assert x in rows <==> x in rows[..|rows| - 1] || x == rows[|rows| - 1];
    }
  }

  /** `remove_user_playlist`: nothing when one of the rows it is about is a master; otherwise exactly
      those rows go, staged and committed. */
  lemma RemoveExactly(c: Cache, id: int, dataset: int, x: Row)
    requires c.loaded
    ensures var d := RemovePlaylist(c, id, dataset);
      if (exists m :: Truthy(m, MASTER)
            && ((m in c.playlists && IsAbout(m, id, dataset, 0)) || (m in c.buckets.regular && IsAbout(m, id, dataset, 2))
                || (m in c.buckets.podcast && IsAbout(m, id, dataset, 3)) || (m in c.buckets.smart && IsAbout(m, id, dataset, 5))))
      then d == c
      else
        && (x in d.playlists <==> x in c.playlists && !IsAbout(x, id, dataset, 0))
        && (x in d.buckets.regular <==> x in c.buckets.regular && !IsAbout(x, id, dataset, 2))
        && (x in d.buckets.podcast <==> x in c.buckets.podcast && !IsAbout(x, id, dataset, 3))
        && (x in d.buckets.smart <==> x in c.buckets.smart && !IsAbout(x, id, dataset, 5))
  {
    hide Truthy;
    hide Without;
    hide Id;
    hide Dataset;
    WithoutExactly(c.playlists, id, dataset, 0, x);
    WithoutExactly(c.buckets.regular, id, dataset, 2, x);
    WithoutExactly(c.buckets.podcast, id, dataset, 3, x);
    WithoutExactly(c.buckets.smart, id, dataset, 5, x);
    assert forall m, b :: Matches(m, id, dataset, b) <==> IsAbout(m, id, dataset, b);
  }

  lemma {:induction false} RenamedAt(rows: seq<Row>, name: string, i: nat)
    requires i < |rows|
    ensures |Renamed(rows, name)| == |rows|
    ensures Renamed(rows, name)[i] == if Truthy(rows[i], MASTER) then rows[i][TITLE := Text(name)] else rows[i]
  {
    hide Truthy;
    var n := |rows| - 1;
    if i < n {
      RenamedAt(rows[..n], name, i);
    } else if n > 0 {
      RenamedAt(rows[..n], name, 0);
    }
  }

  /** `rename_master_playlist`: the masters of both regular buckets have the new title, and nothing
      else has changed. */
  lemma RenameExactly(c: Cache, name: string)
    requires c.loaded
    ensures var d := RenameMaster(c, name);
      && d == c.(buckets := d.buckets, revision := d.revision) && d.buckets.smart == c.buckets.smart
      && |d.buckets.regular| == |c.buckets.regular| && |d.buckets.podcast| == |c.buckets.podcast|
      && (forall i | 0 <= i < |c.buckets.regular| :: var row := c.buckets.regular[i];
            d.buckets.regular[i] == if Truthy(row, MASTER) then row[TITLE := Text(name)] else row)
      && (forall i | 0 <= i < |c.buckets.podcast| :: var row := c.buckets.podcast[i];
            d.buckets.podcast[i] == if Truthy(row, MASTER) then row[TITLE := Text(name)] else row)
  {
    hide Truthy;
    hide HasMaster;
    RenamedLength(c.buckets.regular, name);
    RenamedLength(c.buckets.podcast, name);
    forall i | 0 <= i < |c.buckets.regular|
      ensures Renamed(c.buckets.regular, name)[i]
              == if Truthy(c.buckets.regular[i], MASTER) then c.buckets.regular[i][TITLE := Text(name)] else c.buckets.regular[i]
    {
      RenamedAt(c.buckets.regular, name, i);
    }
    forall i | 0 <= i < |c.buckets.podcast|
      ensures Renamed(c.buckets.podcast, name)[i]
              == if Truthy(c.buckets.podcast[i], MASTER) then c.buckets.podcast[i][TITLE := Text(name)] else c.buckets.podcast[i]
    {
      RenamedAt(c.buckets.podcast, name, i);
    }
    hide Renamed;
  }

  lemma {:induction false} RenamedLength(rows: seq<Row>, name: string)
    ensures |Renamed(rows, name)| == |rows|
  {
    if rows != [] {
      RenamedLength(rows[..|rows| - 1], name);
    }
  }
}
