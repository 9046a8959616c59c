/** Staged playlist edits: what the library shows while they are pending, and what committing
    them into the parsed database leaves. */
module PlaylistOverlay {
  import opened Outcomes
  import opened PlaylistRows

  function ShowBucket(rows: seq<Row>, dataset: int): seq<Row> {
    if rows == [] then [] else ShowBucket(rows[..|rows| - 1], dataset) + [WithOrigin(rows[|rows| - 1], dataset)]
  }

  /** The committed playlists, as shown. */
  function ShowAll(b: Buckets): seq<Row> {
    ShowBucket(b.regular, 2) + ShowBucket(b.podcast, 3) + ShowBucket(b.smart, 5)
  }

  /** One staged row on top: in place of the row with its id and dataset, or at the end. */
  function Lay(rows: seq<Row>, row: Row): seq<Row> {
    var i := Index(rows, Id(row), {Dataset(row)});
    IndexSpec(rows, Id(row), {Dataset(row)});
    if Id(row) != 0 && Dataset(row) != 0 && i.Some? then rows[i.value := row] else rows + [row]
  }

  function LayAll(rows: seq<Row>, staged: seq<Row>): seq<Row> {
    if staged == [] then rows else Lay(LayAll(rows, staged[..|staged| - 1]), staged[|staged| - 1])
  }

  /** `get_playlists`: the library with the staged edits on top. */
  function View(b: Buckets, staged: seq<Row>): seq<Row> {
    LayAll(ShowAll(b), staged)
  }

  /** What the view says about one playlist of one dataset. */
  function ViewAt(rows: seq<Row>, id: int, dataset: int): Option<Row> {
    var found := Find(rows, id, dataset);
    if found.Some? then Some(Content(found.value)) else None
  }

  /** `save_user_playlist`, for one target row. */
  function Stage(staged: seq<Row>, target: Row): seq<Row> {
    var row := Counted(target);
    var i := Index(staged, Id(row), {Dataset(row)});
    IndexSpec(staged, Id(row), {Dataset(row)});
    if i.Some? then staged[i.value := row] else staged + [row]
  }

  function StageAll(staged: seq<Row>, targets: seq<Row>): seq<Row> {
    if targets == [] then staged else Stage(StageAll(staged, targets[..|targets| - 1]), targets[|targets| - 1])
  }

  /** At most one staged row for each playlist of each dataset. */
  ghost predicate OncePerKey(rows: seq<Row>) {
    forall i, j | 0 <= i < j < |rows| :: Id(rows[i]) != Id(rows[j]) || Dataset(rows[i]) != Dataset(rows[j])
  }

  lemma CountedKey(row: Row)
    ensures Id(Counted(row)) == Id(row) && Dataset(Counted(row)) == Dataset(row)
  {
  }

  lemma {:induction false} StageOnce(staged: seq<Row>, targets: seq<Row>)
    requires OncePerKey(staged)
    ensures OncePerKey(StageAll(staged, targets))
  {
    hide Index;
    hide Counted;
    if targets != [] {
      var before, target := StageAll(staged, targets[..|targets| - 1]), targets[|targets| - 1];
      StageOnce(staged, targets[..|targets| - 1]);
      CountedKey(target);
      IndexSpec(before, Id(target), {Dataset(target)});
    }
  }

  /** A staged row after `commit_user_playlists` has completed it; None when it is passed over. */
  function Completed(row: Row, b: Buckets): Option<Row> {
    if Id(row) == 0 || Truthy(row, MASTER) then None
    else
      var known := WithKnownOrigin(Described(row), Some(b));
      if known.None? then None
      else
        var counted := Counted(known.value);
        var target := Target(counted);
        Some(SetDefault(SetDefault(counted, DATASET, Num(target)), RESULT_KEY, Text(ResultKeyFor(target))))
  }

  /** One bucket while `row` is filed in bucket `target`: the first row it stands for is replaced
      in the target bucket and removed from any other. */
  function FileIn(rows: seq<Row>, row: Row, here: bool): seq<Row> {
    var i := Index(rows, Id(row), {0, Dataset(row)});
    IndexSpec(rows, Id(row), {0, Dataset(row)});
    if i.None? then (if here then rows + [row] else rows)
    else if here then rows[i.value := row]
    else rows[..i.value] + rows[i.value + 1..]
  }

  function File(b: Buckets, row: Row, target: int): Buckets {
    Buckets(FileIn(b.regular, row, target == 2), FileIn(b.podcast, row, target == 3), FileIn(b.smart, row, target == 5))
  }

  /** `commit_user_playlists`, for one staged row. */
  function CommitOne(b: Buckets, row: Row): Buckets {
    var completed := Completed(row, b);
    if completed.None? then b else File(b, completed.value, Target(Counted(WithKnownOrigin(Described(row), Some(b)).value)))
  }

  function CommitAll(b: Buckets, staged: seq<Row>): Buckets {
    if staged == [] then b else CommitOne(CommitAll(b, staged[..|staged| - 1]), staged[|staged| - 1])
  }

  /** A staged row that committing files where the view shows it, as the view shows it. */
  predicate Settles(row: Row) {
    && Id(row) != 0 && !Truthy(row, MASTER)
    && Dataset(row) in {2, 3, 5} && (Dataset(row) == 2 ==> !IsPodcast(row))
    && Described(row) == row && Counted(row) == row
  }

  /** A new row under the dataset it is filed in. */
  function Tagged(row: Row): Row {
    if DATASET in row then row else row[DATASET := Num(Target(row))]
  }

  /** A staged row, new or edited, that committing keeps as it is but for its dataset. */
  predicate Fileable(row: Row) {
    Settles(Tagged(row)) && (DATASET !in row ==> !IsEdit(row))
  }

  function TagAll(staged: seq<Row>): (r: seq<Row>)
    ensures |r| == |staged|
  {
    if staged == [] then [] else TagAll(staged[..|staged| - 1]) + [Tagged(staged[|staged| - 1])]
  }

  lemma ShowLength(rows: seq<Row>, dataset: int)
    ensures |ShowBucket(rows, dataset)| == |rows|
    ensures forall i | 0 <= i < |rows| :: ShowBucket(rows, dataset)[i] == WithOrigin(rows[i], dataset)
  {
  }

  lemma WithOriginKey(row: Row, dataset: int)
    ensures Id(WithOrigin(row, dataset)) == Id(row) && Dataset(WithOrigin(row, dataset)) == dataset
  {
  }

  /** Shown rows carry their bucket's number. */
  lemma ShownIn(b: Buckets, id: int, dataset: int)
    ensures Find(ShowAll(b), id, dataset) == Find(ShowBucket(b.At(dataset), dataset), id, dataset)
  {
    hide Index;
    hide WithOrigin;
    hide ShowBucket;
    var all, own := ShowAll(b), ShowBucket(b.At(dataset), dataset);
    ShowLength(b.regular, 2);
    ShowLength(b.podcast, 3);
    ShowLength(b.smart, 5);
    ShowLength(b.At(dataset), dataset);
    forall row, d ensures Dataset(WithOrigin(row, d)) == d && Id(WithOrigin(row, d)) == Id(row) { WithOriginKey(row, d); }
    IndexSpec(own, id, {dataset});
    var i := Index(own, id, {dataset});
    if i.None? {
      forall j | 0 <= j < |all| ensures !(Id(all[j]) == id && Dataset(all[j]) in {dataset}) {
        assert Dataset(all[j]) == dataset ==> exists k :: 0 <= k < |own| && own[k] == all[j];
      }
      IndexNone(all, id, {dataset});
    } else {
      var shift := if dataset == 2 then 0 else if dataset == 3 then |b.regular| else |b.regular| + |b.podcast|;
      assert all[shift + i.value] == own[i.value];
      forall j | 0 <= j < shift + i.value ensures !(Id(all[j]) == id && Dataset(all[j]) in {dataset}) {
        if j >= shift { assert all[j] == own[j - shift]; }
      }
      IndexIs(all, id, {dataset}, shift + i.value);
    }
  }

  /** What laying a row on top changes: its own key, and nothing else. */
  lemma LayAt(rows: seq<Row>, row: Row, id: int, dataset: int)
    requires Id(row) != 0 && Dataset(row) != 0
    ensures Find(Lay(rows, row), id, dataset)
            == if id == Id(row) && dataset == Dataset(row) then Some(row) else Find(rows, id, dataset)
  {
    hide Index;
    var after := Lay(rows, row);
    IndexSpec(rows, Id(row), {Dataset(row)});
    IndexSpec(rows, id, {dataset});
    if id == Id(row) && dataset == Dataset(row) {
      var i := Index(rows, id, {dataset});
      IndexIs(after, id, {dataset}, if i.Some? then i.value else |rows|);
    } else {
      var i := Index(rows, id, {dataset});
      if i.Some? {
        IndexIs(after, id, {dataset}, i.value);
      } else {
        IndexNone(after, id, {dataset});
      }
    }
  }

  /** Replacing the first row for a key, or adding one, changes what is found for that key only. */
  lemma FileAt(rows: seq<Row>, row: Row, id: int)
    requires forall r | r in rows :: Dataset(r) == Dataset(row)
    ensures var i, after := Index(rows, id, {0, Dataset(row)}), FileIn(rows, row, true);
      && var j := Index(after, id, {0, Dataset(row)});
      && (forall r | r in after :: Dataset(r) == Dataset(row))
      && (id == Id(row) ==> j.Some? && j.value < |after| && after[j.value] == row)
      && (id != Id(row) ==> j == i && (i.Some? ==> i.value < |rows| && i.value < |after| && after[i.value] == rows[i.value]))
  {
    hide Index;
    var tags := {0, Dataset(row)};
    var after := FileIn(rows, row, true);
    IndexSpec(rows, Id(row), tags);
    IndexSpec(rows, id, tags);
    var i := Index(rows, id, tags);
    if id == Id(row) {
      IndexIs(after, id, tags, if i.Some? then i.value else |rows|);
    } else if i.Some? {
      IndexIs(after, id, tags, i.value);
    } else {
      IndexNone(after, id, tags);
    }
  }

  /** What a bucket of tagged rows shows for an id. */
  lemma ShownAs(rows: seq<Row>, dataset: int, id: int)
    requires forall r | r in rows :: Dataset(r) == dataset
    ensures var i := Index(rows, id, {0, dataset});
            && (i.Some? ==> i.value < |rows|)
            && Find(ShowBucket(rows, dataset), id, dataset)
               == if i.Some? then Some(WithOrigin(rows[i.value], dataset)) else None
  {
    hide Index;
    hide WithOrigin;
    hide ShowBucket;
    var shown := ShowBucket(rows, dataset);
    ShowLength(rows, dataset);
    forall j | 0 <= j < |rows| ensures Id(shown[j]) == Id(rows[j]) && Dataset(shown[j]) == dataset && Dataset(rows[j]) == dataset {
      WithOriginKey(rows[j], dataset);
      assert rows[j] in rows;
    }
    IndexSpec(rows, id, {0, dataset});
    var i := Index(rows, id, {0, dataset});
    if i.Some? {
      IndexIs(shown, id, {dataset}, i.value);
    } else {
      IndexNone(shown, id, {dataset});
    }
  }

  /** Filing a row in the bucket of its own dataset, among rows that carry their bucket's number. */
  lemma FiledAt(b: Buckets, row: Row, id: int, dataset: int)
    requires b.OwnTags() && Dataset(row) in {2, 3, 5}
    ensures File(b, row, Dataset(row)).OwnTags()
    ensures Find(ShowAll(File(b, row, Dataset(row))), id, dataset)
            == if id == Id(row) && dataset == Dataset(row) then Some(WithOrigin(row, dataset)) else Find(ShowAll(b), id, dataset)
  {
    hide Index;
    hide FileIn;
    hide WithOrigin;
    hide ShowAll;
    hide ShowBucket;
    hide Find;
    var own := Dataset(row);
    var after := File(b, row, own);
    forall d | d in {2, 3, 5} && d != own ensures after.At(d) == b.At(d) {
      ElsewhereUntouched(b.At(d), row, d);
    }
    FileAt(b.At(own), row, id);
    ShownIn(b, id, dataset);
    ShownIn(after, id, dataset);
    assert (forall r | r in after.At(2) :: Dataset(r) == 2) && (forall r | r in after.At(3) :: Dataset(r) == 3)
           && (forall r | r in after.At(5) :: Dataset(r) == 5);
    if dataset == own {
      ShownAs(b.At(own), own, id);
      ShownAs(after.At(own), own, id);
    }
  }

  lemma ElsewhereUntouched(rows: seq<Row>, row: Row, dataset: int)
    requires (forall r | r in rows :: Dataset(r) == dataset) && dataset != 0 && dataset != Dataset(row)
    ensures FileIn(rows, row, false) == rows
  {
    hide Index;
    IndexSpec(rows, Id(row), {0, Dataset(row)});
    forall j | 0 <= j < |rows| ensures Dataset(rows[j]) == dataset { assert rows[j] in rows; }
  }

  /** A fileable row is filed under its own key, with its own content. */
  lemma FiledRow(row: Row, b: Buckets)
    requires Fileable(row)
    ensures var filed := SetDefault(Tagged(row), RESULT_KEY, Text(ResultKeyFor(Dataset(Tagged(row)))));
      && CommitOne(b, row) == File(b, filed, Dataset(Tagged(row)))
      && Id(filed) == Id(Tagged(row)) && Dataset(filed) == Dataset(Tagged(row))
      && Content(WithOrigin(filed, Dataset(filed))) == Content(Tagged(row))
  {
    hide File;
    hide WithOrigin;
    hide Content;
    var tagged := Tagged(row);
    TaggedFixed(row);
    SameContent(tagged, SetDefault(tagged, RESULT_KEY, Text(ResultKeyFor(Dataset(tagged)))));
  }

  lemma TaggedFixed(row: Row)
    requires Fileable(row)
    ensures Described(row) == row && Counted(row) == row && Id(row) == Id(Tagged(row)) && !Truthy(row, MASTER)
    ensures Target(row) == Dataset(Tagged(row))
  {
    var tagged := Tagged(row);
    assert forall key | key != DATASET :: (key in row <==> key in tagged) && (key in row ==> row[key] == tagged[key]);
    assert DescriptionOf(row) == DescriptionOf(tagged);
    assert Described(row).Keys == row.Keys;
  }

  lemma SameContent(row: Row, filed: Row)
    requires Described(row) == row && filed == SetDefault(row, RESULT_KEY, Text(ResultKeyFor(Dataset(row))))
    requires DATASET in row && row[DATASET] == Num(Dataset(row))
    ensures Content(WithOrigin(filed, Dataset(row))) == Content(row)
  {
  }

  /** Committing one row shows the same as laying it on top does. */
  lemma CommitOneKeepsView(b: Buckets, row: Row, id: int, dataset: int)
    requires b.OwnTags() && Fileable(row)
    ensures CommitOne(b, row).OwnTags()
    ensures var tagged := Tagged(row);
            ViewAt(ShowAll(CommitOne(b, row)), id, dataset)
            == if id == Id(tagged) && dataset == Dataset(tagged) then Some(Content(tagged)) else ViewAt(ShowAll(b), id, dataset)
  {
    hide CommitOne;
    hide File;
    hide ShowAll;
    hide Find;
    hide WithOrigin;
    hide Described;
    FiledRow(row, b);
    var tagged := Tagged(row);
    FiledAt(b, SetDefault(tagged, RESULT_KEY, Text(ResultKeyFor(Dataset(tagged)))), id, dataset);
  }

  /** What committing leaves is what was shown with the staged rows on top, new rows counting as
      rows of the dataset they are filed in. */
  lemma {:induction false} CommitMatchesOverlay(b: Buckets, staged: seq<Row>, id: int, dataset: int)
    requires b.OwnTags() && forall row | row in staged :: Fileable(row)
    ensures CommitAll(b, staged).OwnTags()
    ensures ViewAt(View(CommitAll(b, staged), []), id, dataset) == ViewAt(View(b, TagAll(staged)), id, dataset)
  {
    hide CommitOne;
    hide Lay;
    hide ShowAll;
    hide Find;
    hide Content;
    hide Described;
    if staged != [] {
      var front, row := staged[..|staged| - 1], staged[|staged| - 1];
      CommitMatchesOverlay(b, front, id, dataset);
      CommitOneKeepsView(CommitAll(b, front), row, id, dataset);
      assert TagAll(staged)[..|staged| - 1] == TagAll(front);
      LayAt(LayAll(ShowAll(b), TagAll(front)), Tagged(row), id, dataset);
    }
  }

  lemma {:induction false} AllTagged(staged: seq<Row>)
    requires forall row | row in staged :: DATASET in row
    ensures TagAll(staged) == staged
  {
    if staged != [] {
      AllTagged(staged[..|staged| - 1]);
    }
  }

  /** `commit_user_playlists` keeps the library as it was shown: every playlist of every dataset
      has the content it had with the staged edits on top. */
  lemma CommitKeepsView(b: Buckets, staged: seq<Row>, id: int, dataset: int)
    requires b.OwnTags() && forall row | row in staged :: Settles(row)
    ensures ViewAt(View(CommitAll(b, staged), []), id, dataset) == ViewAt(View(b, staged), id, dataset)
  {
    hide CommitAll;
    hide View;
    hide Described;
    assert forall row | row in staged :: DATASET in row && Fileable(row);
    AllTagged(staged);
    CommitMatchesOverlay(b, staged, id, dataset);
  }

  /** No playlist is shown twice. */
  ghost predicate ShownOnce(rows: seq<Row>) {
    forall i, j | 0 <= i < j < |rows| && Id(rows[i]) != 0 :: Id(rows[i]) != Id(rows[j]) || Dataset(rows[i]) != Dataset(rows[j])
  }

  lemma {:induction false} LayOnce(rows: seq<Row>, staged: seq<Row>)
    requires ShownOnce(rows) && forall row | row in staged :: Id(row) != 0 && Dataset(row) != 0
    ensures ShownOnce(LayAll(rows, staged))
  {
    hide Index;
    if staged != [] {
      var front, row := staged[..|staged| - 1], staged[|staged| - 1];
      LayOnce(rows, front);
      IndexSpec(LayAll(rows, front), Id(row), {Dataset(row)});
    }
  }

  lemma OneStaged(b: Buckets, row: Row)
    ensures View(b, [row]) == Lay(ShowAll(b), row) && CommitAll(b, [row]) == CommitOne(b, row)
  {
    hide Lay;
    hide CommitOne;
    hide ShowAll;
    var rows, front := ShowAll(b), [row][..|[row]| - 1];
    assert front == [] && LayAll(rows, front) == rows && CommitAll(b, front) == b;
    assert LayAll(rows, [row]) == Lay(LayAll(rows, front), row);
    assert CommitAll(b, [row]) == CommitOne(CommitAll(b, front), row);
  }

  /** An edit of a regular playlist that counts as a podcast is filed with the podcasts: the
      regular one, which the view showed, is gone after the commit. */
  lemma PodcastRowMoves(b: Buckets, row: Row)
    requires b.OwnTags() && Dataset(row) == 2 && IsPodcast(row) && Id(row) != 0 && !Truthy(row, MASTER)
    requires forall i, j | 0 <= i < j < |b.regular| :: Id(b.regular[i]) != Id(b.regular[j])
    ensures ViewAt(View(b, [row]), Id(row), 2) == Some(Content(row))
    ensures ViewAt(View(CommitAll(b, [row]), []), Id(row), 2) == None
  {
    hide Index;
    hide WithOrigin;
    hide ShowBucket;
    hide ShowAll;
    var after := CommitAll(b, [row]);
    OneStaged(b, row);
    LayAt(ShowAll(b), row, Id(row), 2);
    var completed := PodcastTarget(row, b);
    IndexSpec(b.regular, Id(row), {0, 2});
    assert after.regular == FileIn(b.regular, completed, false);
    forall j | 0 <= j < |b.regular| ensures Dataset(b.regular[j]) == 2 { assert b.regular[j] in b.regular; }
    assert forall j | 0 <= j < |after.regular| :: Id(after.regular[j]) != Id(row);
    forall r, d ensures Dataset(WithOrigin(r, d)) == d && Id(WithOrigin(r, d)) == Id(r) { WithOriginKey(r, d); }
    ShowLength(after.regular, 2);
    IndexNone(ShowBucket(after.regular, 2), Id(row), {2});
    ShownIn(after, Id(row), 2);
  }

  lemma PodcastTarget(row: Row, b: Buckets) returns (completed: Row)
    requires Dataset(row) == 2 && IsPodcast(row) && Id(row) != 0 && !Truthy(row, MASTER)
    ensures Completed(row, b) == Some(completed) && CommitOne(b, row) == File(b, completed, 3)
    ensures Id(completed) == Id(row) && Dataset(completed) == 2
  {
    hide File;
    completed := Completed(row, b).value;
  }

  /** A staged row of a master playlist is shown while it is pending and dropped by the commit. */
  lemma MasterRowDropped(b: Buckets, row: Row)
    requires Id(row) != 0 && Dataset(row) != 0 && Truthy(row, MASTER)
    ensures ViewAt(View(b, [row]), Id(row), Dataset(row)) == Some(Content(row))
    ensures CommitAll(b, [row]) == b
  {
    hide ShowAll;
    OneStaged(b, row);
    LayAt(ShowAll(b), row, Id(row), Dataset(row));
  }

  /** For one edited row as `save_user_playlist` leaves it, exactly when the commit keeps the view:
      a master row must already be what is shown, and any other must not be a regular playlist that
      counts as a podcast. */
  lemma CommitKeepsViewIff(b: Buckets, row: Row)
    requires b.OwnTags() && forall i, j | 0 <= i < j < |b.regular| :: Id(b.regular[i]) != Id(b.regular[j])
    requires Id(row) != 0 && Dataset(row) in {2, 3, 5} && Described(row) == row && Counted(row) == row
    ensures (forall id, dataset :: ViewAt(View(CommitAll(b, [row]), []), id, dataset) == ViewAt(View(b, [row]), id, dataset))
            <==> if Truthy(row, MASTER) then ViewAt(ShowAll(b), Id(row), Dataset(row)) == Some(Content(row))
                 else !(Dataset(row) == 2 && IsPodcast(row))
  {
    hide ShowAll;
    hide CommitOne;
    hide Lay;
    hide ViewAt;
    if Truthy(row, MASTER) {
      MasterRowDropped(b, row);
      OneStaged(b, row);
      forall id, dataset
        ensures ViewAt(Lay(ShowAll(b), row), id, dataset)
                == if id == Id(row) && dataset == Dataset(row) then Some(Content(row)) else ViewAt(ShowAll(b), id, dataset)
      {
        LaidAt(b, row, id, dataset);
      }
    } else if Dataset(row) == 2 && IsPodcast(row) {
      PodcastRowMoves(b, row);
      assert ViewAt(View(CommitAll(b, [row]), []), Id(row), 2) != ViewAt(View(b, [row]), Id(row), 2);
    } else {
      forall id, dataset ensures ViewAt(View(CommitAll(b, [row]), []), id, dataset) == ViewAt(View(b, [row]), id, dataset) {
        CommitKeepsView(b, [row], id, dataset);
      }
    }
  }

  lemma LaidAt(b: Buckets, row: Row, id: int, dataset: int)
    requires Id(row) != 0 && Dataset(row) != 0
    ensures ViewAt(Lay(ShowAll(b), row), id, dataset)
            == if id == Id(row) && dataset == Dataset(row) then Some(Content(row)) else ViewAt(ShowAll(b), id, dataset)
  {
    hide ShowAll;
    hide Lay;
    LayAt(ShowAll(b), row, id, dataset);
  }

  /** A row of this id in canonical form. */
  predicate Canonical(row: Row, id: int) {
    Id(row) == id && Described(row) == row
  }

  lemma CountedCanonical(row: Row, id: int)
    requires Canonical(row, id)
    ensures Canonical(Counted(row), id) && Counted(Counted(row)) == Counted(row)
  {
    var counted := Counted(row);
    assert counted == row[CHILD_COUNT := Num(if ITEMS in row && row[ITEMS].Items? then |row[ITEMS].items| else 0)] || counted == row;
    assert DescriptionOf(counted) == DescriptionOf(row);
    assert DESCRIPTION in row ==> counted[DESCRIPTION] == row[DESCRIPTION];
    assert ALBUM in row ==> counted[ALBUM] == row[ALBUM];
  }

  /** Notes on where a row is do not touch its description. */
  lemma NotesCanonical(row: Row, id: int, dataset: Value, key: Value, source: Value)
    requires Canonical(row, id)
    ensures Canonical(row[DATASET := dataset][RESULT_KEY := key], id)
    ensures Canonical(row[DATASET := dataset][RESULT_KEY := key][SOURCE := source], id)
  {
    var noted := row[DATASET := dataset][RESULT_KEY := key];
    assert DescriptionOf(noted) == DescriptionOf(row) == DescriptionOf(noted[SOURCE := source]);
    assert DESCRIPTION in row ==> noted[DESCRIPTION] == row[DESCRIPTION];
    assert ALBUM in row ==> noted[ALBUM] == row[ALBUM];
  }

  lemma DescribedCanonical(row: Row)
    ensures Canonical(Described(row), Id(row))
  {
    DescribedOnce(row);
  }

  lemma {:induction false} DisplayCanonical(row: Row, data: Option<Buckets>, origins: seq<Origin>, i: nat)
    requires i < |DisplayTargets(row, data, origins)|
    ensures Canonical(DisplayTargets(row, data, origins)[i], Id(row))
  {
    hide Described;
    hide Index;
    var n := |origins| - 1;
    if i < |DisplayTargets(row, data, origins[..n])| {
      DisplayCanonical(row, data, origins[..n], i);
    } else {
      EditCanonical(row, data, Usable(origins[n]).value);
    }
  }

  lemma EditCanonical(row: Row, data: Option<Buckets>, o: Origin)
    ensures Canonical(EditAt(row, data, o), Id(row))
  {
    hide Described;
    hide Index;
    var live := FindLive(data, Id(row), o);
    var edited := (if live.Some? then live.value else map[]) + (row - DISPLAY_ONLY);
    var tagged := edited[ID := Num(Id(row))][DATASET := Num(o.dataset)][RESULT_KEY := Text(o.key)];
    DescribedCanonical(tagged[SOURCE := Text(SourceFor(tagged, o.dataset))]);
  }

  lemma KnownCanonical(row: Row, data: Option<Buckets>)
    requires Canonical(row, Id(row))
    ensures var known := WithKnownOrigin(row, data); known.Some? ==> Canonical(known.value, Id(row))
  {
    hide Described;
    hide LiveOrigins;
    var known := WithKnownOrigin(row, data);
    if known.Some? && known.value != row {
      var live := LiveOrigins(data, Id(row));
      var o: Origin :| live == {o} && known == Some(SetDefault(row[DATASET := Num(o.dataset)][RESULT_KEY := Text(o.key)], SOURCE,
        Text(SourceFor(row[DATASET := Num(o.dataset)][RESULT_KEY := Text(o.key)], o.dataset))));
      var located := row[DATASET := Num(o.dataset)][RESULT_KEY := Text(o.key)];
      NotesCanonical(row, Id(row), Num(o.dataset), Text(o.key), Text(SourceFor(located, o.dataset)));
    }
  }

  /** Whatever an edit is saved as, its staged rows keep its id, and carry a canonical description
      and child count: all that committing would still complete. */
  lemma SavedRows(row: Row, data: Option<Buckets>, i: nat)
    requires Described(row) == row && i < |SaveTargets(row, data)|
    ensures var saved := Counted(SaveTargets(row, data)[i]);
            Canonical(saved, Id(row)) && Counted(saved) == saved
  {
    hide Described;
    hide DisplayTargets;
    hide WithKnownOrigin;
    hide Counted;
    hide Canonical;
    var origins := if DISPLAY_ORIGINS in row && row[DISPLAY_ORIGINS].Origins? then row[DISPLAY_ORIGINS].origins else [];
    SavedCanonical(row, data, origins, i);
    CountedCanonical(SaveTargets(row, data)[i], Id(row));
  }

  lemma SavedCanonical(row: Row, data: Option<Buckets>, origins: seq<Origin>, i: nat)
    requires Described(row) == row && i < |SaveTargets(row, data)|
    requires origins == if DISPLAY_ORIGINS in row && row[DISPLAY_ORIGINS].Origins? then row[DISPLAY_ORIGINS].origins else []
    ensures Canonical(SaveTargets(row, data)[i], Id(row))
  {
    hide Described;
    hide DisplayTargets;
    hide WithKnownOrigin;
    hide IsCategory;
    hide IsPodcast;
    if |origins| > 1 && DisplayTargets(row, data, origins) != [] {
      DisplayCanonical(row, data, origins, i);
    } else {
      KnownCanonical(row, data);
      var resolved := WithKnownOrigin(row, data).value;
      if SaveTargets(row, data)[i] != resolved {
        var tagged2 := resolved[DATASET := Num(2)][RESULT_KEY := Text(ResultKeyFor(2))];
        var tagged3 := resolved[DATASET := Num(3)][RESULT_KEY := Text(ResultKeyFor(3))];
        DescribedCanonical(SetDefault(tagged2, SOURCE, Text(SourceFor(tagged2, 2))));
        DescribedCanonical(SetDefault(tagged3, SOURCE, Text(SourceFor(tagged3, 3))));
      }
    }
  }
}
