/** The library cache as a value: live rows, staged edits, and the revision that names them. */
module CacheModel {
  import opened Outcomes
  import opened PlaylistRows
  import opened PlaylistOverlay

  const TRACK_ID := "db_track_id"
  const OLD_TRACK_ID := "db_id"
  const PENDING_ART := "_iop_pending_artwork_path"

  /** What one field held before its first staged edit, and what it holds now. */
  datatype Change = Change(before: Option<Value>, after: Value)

  type Changes = map<string, Value>
  type Staged = map<string, Change>

  /** `rows` are the track records by identity; those in `library`, in order, are the live ones. */
  datatype Cache = Cache(
    loaded: bool,
    rows: map<nat, Row>,
    library: seq<nat>,
    buckets: Buckets,
    playlists: seq<Row>,
    edits: map<int, Staged>,
    artwork: map<int, string>,
    revision: nat
  ) {
    function StagedFor(id: int): Staged {
      if id in edits then edits[id] else map[]
    }

    predicate HasPending() {
      edits != map[] || artwork != map[] || playlists != []
    }
  }

  function TrackId(row: Row): int {
    if TRACK_ID in row then NumAt(row, TRACK_ID) else NumAt(row, OLD_TRACK_ID)
  }

  function Get(row: Row, key: string): Option<Value> {
    if key in row then Some(row[key]) else None
  }

  /** Staging `changes` of a row on top of what is staged for it: the oldest original is kept. */
  function Restaged(staged: Staged, row: Row, changes: Changes): Staged {
    staged + map key | key in changes :: Change(if key in staged then staged[key].before else Get(row, key), changes[key])
  }

  /** One track of `update_track_flags`. */
  function EditTrack(c: Cache, target: nat, changes: Changes): Cache {
    if target !in c.rows || TrackId(c.rows[target]) == 0 then c
    else
      var row := c.rows[target];
      var id := TrackId(row);
      c.(rows := c.rows[target := row + changes], edits := c.edits[id := Restaged(c.StagedFor(id), row, changes)])
  }

  function EditTracks(c: Cache, targets: seq<nat>, changes: Changes): Cache {
    if targets == [] then c
    else EditTrack(EditTracks(c, targets[..|targets| - 1], changes), targets[|targets| - 1], changes)
  }

  /** Whether a track of the list has an id when its turn comes. */
  predicate AnyEdited(c: Cache, targets: seq<nat>, changes: Changes) {
    targets != []
    && (AnyEdited(c, targets[..|targets| - 1], changes)
        || (var before := EditTracks(c, targets[..|targets| - 1], changes);
            var t := targets[|targets| - 1];
            t in before.rows && TrackId(before.rows[t]) != 0))
  }

  function Bumped(c: Cache, edited: bool): Cache {
    if edited then c.(revision := c.revision + 1) else c
  }

  /** `update_track_flags` */
  function UpdateFlags(c: Cache, targets: seq<nat>, changes: Changes): Cache {
    Bumped(EditTracks(c, targets, changes), changes != map[] && AnyEdited(c, targets, changes))
  }

  /** One track of `update_track_artwork`. */
  function EditArtwork(c: Cache, target: nat, path: string): Cache {
    if target !in c.rows || TrackId(c.rows[target]) == 0 then c
    else
      c.(artwork := c.artwork[TrackId(c.rows[target]) := path], rows := c.rows[target := c.rows[target][PENDING_ART := Text(path)]])
  }

  function EditArtworks(c: Cache, targets: seq<nat>, path: string): Cache {
    if targets == [] then c else EditArtwork(EditArtworks(c, targets[..|targets| - 1], path), targets[|targets| - 1], path)
  }

  /** Whether a track of the list has an id when its turn comes. */
  predicate AnyArtwork(c: Cache, targets: seq<nat>, path: string) {
    targets != []
    && (AnyArtwork(c, targets[..|targets| - 1], path)
        || (var before := EditArtworks(c, targets[..|targets| - 1], path);
            var t := targets[|targets| - 1];
            t in before.rows && TrackId(before.rows[t]) != 0))
  }

  /** `update_track_artwork` */
  function UpdateArtwork(c: Cache, targets: seq<nat>, path: string): Cache {
    Bumped(EditArtworks(c, targets, path), AnyArtwork(c, targets, path))
  }

  function Data(c: Cache): Option<Buckets> {
    if c.loaded then Some(c.buckets) else None
  }

  /** The row that is saved; `newId` is the random id that one without an id is given. */
  function Named(row: Row, newId: int): Row {
    if Id(Described(row)) == 0 then Described(row)[ID := Num(newId)] else Described(row)
  }

  /** `save_user_playlist` */
  function SavePlaylist(c: Cache, row: Row, newId: int): Cache {
    var targets := SaveTargets(Named(row, newId), Data(c));
    if targets == [] then c else c.(playlists := StageAll(c.playlists, targets), revision := c.revision + 1)
  }

  /** Whether `remove_user_playlist` is about this row. */
  predicate Matches(row: Row, id: int, dataset: int, bucket: int) {
    Id(row) == id && (dataset == 0 || (if Dataset(row) != 0 then Dataset(row) else bucket) == dataset)
  }

  function Without(rows: seq<Row>, id: int, dataset: int, bucket: int): seq<Row> {
    if rows == [] then []
    else
      var last := rows[|rows| - 1];
      Without(rows[..|rows| - 1], id, dataset, bucket) + (if Matches(last, id, dataset, bucket) then [] else [last])
  }

  predicate AnyMaster(rows: seq<Row>, id: int, dataset: int, bucket: int) {
    exists row :: row in rows && Matches(row, id, dataset, bucket) && Truthy(row, MASTER)
  }

  /** `remove_user_playlist` */
  function RemovePlaylist(c: Cache, id: int, dataset: int): Cache {
    var b := if c.loaded then c.buckets else Buckets([], [], []);
    if AnyMaster(c.playlists, id, dataset, 0) || AnyMaster(b.regular, id, dataset, 2)
       || AnyMaster(b.podcast, id, dataset, 3) || AnyMaster(b.smart, id, dataset, 5)
    then c
    else
      var kept := Without(c.playlists, id, dataset, 0);
      var left := if c.loaded
                  then Buckets(Without(b.regular, id, dataset, 2), Without(b.podcast, id, dataset, 3), Without(b.smart, id, dataset, 5))
                  else c.buckets;
      Bumped(c.(playlists := kept, buckets := left), kept != c.playlists || left != c.buckets)
  }

  function Renamed(rows: seq<Row>, name: string): seq<Row> {
    if rows == [] then []
    else
      var last := rows[|rows| - 1];
      Renamed(rows[..|rows| - 1], name) + [if Truthy(last, MASTER) then last[TITLE := Text(name)] else last]
  }

  predicate HasMaster(rows: seq<Row>) {
    exists row :: row in rows && Truthy(row, MASTER)
  }

  /** `rename_master_playlist` */
  function RenameMaster(c: Cache, name: string): Cache {
    if !c.loaded then c
    else
      Bumped(c.(buckets := c.buckets.(regular := Renamed(c.buckets.regular, name), podcast := Renamed(c.buckets.podcast, name))),
             HasMaster(c.buckets.regular) || HasMaster(c.buckets.podcast))
  }

  /** `discard_quick_write_state` */
  function Discard(c: Cache): Cache {
    c.(playlists := [], edits := map[], artwork := map[], revision := c.revision + 1)
  }

  /** `commit_quick_write_state`, when the revision is still the expected one. */
  function Committed(c: Cache): Cache {
    c.(buckets := if c.loaded then CommitAll(c.buckets, c.playlists) else c.buckets,
       playlists := [], edits := map[], artwork := map[], revision := c.revision + 1)
  }

  /** What a capture hands the writer. */
  datatype Image = Image(tracks: seq<Row>, playlists: seq<Row>, artwork: map<int, string>)

  /** Track `i` is the last live one with its id; staged edits are applied to that one. */
  predicate LastWithId(tracks: seq<Row>, i: nat)
    requires i < |tracks|
  {
    TrackId(tracks[i]) != 0 && forall j | i < j < |tracks| :: TrackId(tracks[j]) != TrackId(tracks[i])
  }

  function Afters(staged: Staged): Changes {
    map key | key in staged :: staged[key].after
  }

  function Applied(tracks: seq<Row>, edits: map<int, Staged>, i: nat): Row
    requires i < |tracks|
  {
    (if LastWithId(tracks, i) && TrackId(tracks[i]) in edits then tracks[i] + Afters(edits[TrackId(tracks[i])]) else tracks[i])
      - {PENDING_ART}
  }

  function LiveTracks(c: Cache): seq<Row> {
    if c.loaded then seq(|c.library|, i requires 0 <= i < |c.library| => if c.library[i] in c.rows then c.rows[c.library[i]] else map[])
    else []
  }

  function ImageTracks(tracks: seq<Row>, edits: map<int, Staged>): seq<Row> {
    seq(|tracks|, i requires 0 <= i < |tracks| => Applied(tracks, edits, i))
  }

  function LivePlaylists(c: Cache): seq<Row> {
    if c.loaded then View(c.buckets, c.playlists) else []
  }

  function Capture(c: Cache): Image {
    Image(ImageTracks(LiveTracks(c), c.edits), LivePlaylists(c), c.artwork)
  }

  datatype Edit =
    | Flags(targets: seq<nat>, changes: Changes)
    | Art(targets: seq<nat>, path: string)
    | Save(row: Row, newId: int)
    | Remove(id: int, dataset: int)
    | Rename(name: string)
    | Commit(expected: nat)
    | Drop

  function Apply(c: Cache, e: Edit): Cache {
    match e
    case Flags(targets, changes) => UpdateFlags(c, targets, changes)
    case Art(targets, path) => UpdateArtwork(c, targets, path)
    case Save(row, newId) => SavePlaylist(c, row, newId)
    case Remove(id, dataset) => RemovePlaylist(c, id, dataset)
    case Rename(name) => RenameMaster(c, name)
    case Commit(expected) => if expected == c.revision then Committed(c) else c
    case Drop => Discard(c)
  }

  lemma {:induction false} NothingEdited(c: Cache, targets: seq<nat>, changes: Changes)
    requires !AnyEdited(c, targets, changes)
    ensures EditTracks(c, targets, changes) == c
  {
    if targets != [] {
      NothingEdited(c, targets[..|targets| - 1], changes);
    }
  }

  /** An edit without changes stages empty edits, which a capture does not show. */
  lemma {:induction false} NothingChanged(c: Cache, targets: seq<nat>)
    ensures var d := EditTracks(c, targets, map[]);
      && d == c.(edits := d.edits)
      && forall id :: Afters(d.StagedFor(id)) == Afters(c.StagedFor(id))
  {
    hide TrackId;
    if targets != [] {
      NothingChanged(c, targets[..|targets| - 1]);
      var before := EditTracks(c, targets[..|targets| - 1], map[]);
      var t := targets[|targets| - 1];
      if t in before.rows {
        assert before.rows[t] + map[] == before.rows[t];
        assert before.rows[t := before.rows[t]] == before.rows;
        var id := TrackId(before.rows[t]);
        assert Restaged(before.StagedFor(id), before.rows[t], map[]) == before.StagedFor(id);
      }
    }
  }

  lemma SameCapture(c: Cache, d: Cache)
    requires d == c.(edits := d.edits, revision := d.revision)
    requires forall id :: Afters(d.StagedFor(id)) == Afters(c.StagedFor(id))
    ensures Capture(d) == Capture(c)
  {
    hide View;
    hide TrackId;
    hide Afters;
    var tracks := LiveTracks(c);
    assert LiveTracks(d) == tracks;
    forall i | 0 <= i < |tracks| ensures Applied(tracks, d.edits, i) == Applied(tracks, c.edits, i) {
      var id := TrackId(tracks[i]);
      assert Afters(d.StagedFor(id)) == Afters(c.StagedFor(id));
      AppliedAs(tracks, c, i);
      AppliedAs(tracks, d, i);
    }
  }

  lemma AppliedAs(tracks: seq<Row>, c: Cache, i: nat)
    requires i < |tracks|
    ensures Applied(tracks, c.edits, i)
            == (if LastWithId(tracks, i) then tracks[i] + Afters(c.StagedFor(TrackId(tracks[i]))) else tracks[i]) - {PENDING_ART}
  {
    assert Afters(map[]) == map[];
    assert tracks[i] + map[] == tracks[i];
  }

  lemma {:induction false} NoArtwork(c: Cache, targets: seq<nat>, path: string)
    requires !AnyArtwork(c, targets, path)
    ensures EditArtworks(c, targets, path) == c
  {
    hide TrackId;
    if targets != [] {
      NoArtwork(c, targets[..|targets| - 1], path);
    }
  }

  lemma {:induction false} NoMasterRenamed(rows: seq<Row>, name: string)
    requires !HasMaster(rows)
    ensures Renamed(rows, name) == rows
  {
    hide Truthy;
    if rows != [] {
      assert rows[|rows| - 1] in rows;
      NoMasterRenamed(rows[..|rows| - 1], name);
    }
  }

  /** Whatever an operation does, either the revision grows or a capture shows the same. */
  lemma RevisionStep(c: Cache, e: Edit)
    ensures Apply(c, e).revision > c.revision || (Apply(c, e).revision == c.revision && Capture(Apply(c, e)) == Capture(c))
  {
    hide Capture;
    hide SaveTargets;
    hide CommitAll;
    hide StageAll;
    hide EditTrack;
    match e {
      case Flags(targets, changes) =>
        EditsKeepRevision(c, targets, changes);
        if changes == map[] {
          NothingChanged(c, targets);
          SameCapture(c, UpdateFlags(c, targets, changes));
        } else if !AnyEdited(c, targets, changes) {
          NothingEdited(c, targets, changes);
        }
      case Art(targets, path) =>
        ArtworksKeepRevision(c, targets, path);
        if !AnyArtwork(c, targets, path) {
          NoArtwork(c, targets, path);
        }
      case Rename(name) =>
        if !HasMaster(c.buckets.regular) && !HasMaster(c.buckets.podcast) {
          NoMasterRenamed(c.buckets.regular, name);
          NoMasterRenamed(c.buckets.podcast, name);
        }
      case _ =>
    }
  }

  lemma {:induction false} EditsKeepRevision(c: Cache, targets: seq<nat>, changes: Changes)
    ensures EditTracks(c, targets, changes).revision == c.revision
  {
    if targets != [] {
      EditsKeepRevision(c, targets[..|targets| - 1], changes);
    }
  }

  lemma {:induction false} ArtworksKeepRevision(c: Cache, targets: seq<nat>, path: string)
    ensures EditArtworks(c, targets, path).revision == c.revision
  {
    if targets != [] {
      ArtworksKeepRevision(c, targets[..|targets| - 1], path);
    }
  }

  ghost predicate IsRun(run: seq<Cache>, edits: seq<Edit>) {
    |run| == |edits| + 1 && forall i, j | 0 <= i < |edits| && j == i + 1 :: run[j] == Apply(run[i], edits[i])
  }

  /** Over any sequence of operations the revision never names two different captures. */
  lemma {:induction false} RevisionNamesOneCapture(run: seq<Cache>, edits: seq<Edit>, i: nat, j: nat)
    requires IsRun(run, edits) && i <= j < |run|
    ensures run[i].revision <= run[j].revision
    ensures run[i].revision == run[j].revision ==> Capture(run[i]) == Capture(run[j])
    decreases j
  {
    hide Capture;
    hide Apply;
    if i < j {
      RevisionNamesOneCapture(run, edits, i, j - 1);
      RevisionStep(run[j - 1], edits[j - 1]);
      assert run[j] == Apply(run[j - 1], edits[j - 1]);
    }
  }

  /** Each staged change is already in the live row that a capture would apply it to. */
  ghost predicate Faithful(c: Cache) {
    var tracks := LiveTracks(c);
    forall i | 0 <= i < |tracks| && LastWithId(tracks, i) :: Reflects(tracks[i], c.StagedFor(TrackId(tracks[i])))
  }

  ghost predicate Reflects(row: Row, staged: Staged) {
    forall key | key in staged && key != PENDING_ART :: key in row && row[key] == staged[key].after
  }

  lemma ReflectsIff(row: Row, staged: Staged)
    ensures Reflects(row, staged) <==> (row + Afters(staged)) - {PENDING_ART} == row - {PENDING_ART}
  {
    var applied := (row + Afters(staged)) - {PENDING_ART};
    if applied == row - {PENDING_ART} {
      forall key | key in staged && key != PENDING_ART ensures key in row && row[key] == staged[key].after {
        assert key in applied && applied[key] == staged[key].after;
      }
    }
  }

  /** When a commit is accepted for the state that was captured, the tracks that were written are
      the live ones exactly when every staged change is in its live row. */
  lemma CommitTracksIff(c: Cache)
    ensures (|Capture(c).tracks| == |LiveTracks(Committed(c))|
             && forall i | 0 <= i < |Capture(c).tracks| :: Capture(c).tracks[i] == LiveTracks(Committed(c))[i] - {PENDING_ART})
            <==> Faithful(c)
  {
    hide TrackId;
    hide Afters;
    hide Reflects;
    hide CommitAll;
    hide View;
    var tracks := LiveTracks(c);
    assert LiveTracks(Committed(c)) == tracks;
    forall i | 0 <= i < |tracks|
      ensures Capture(c).tracks[i] == tracks[i] - {PENDING_ART}
              <==> (LastWithId(tracks, i) ==> Reflects(tracks[i], c.StagedFor(TrackId(tracks[i]))))
    {
      AppliedAs(tracks, c, i);
      ReflectsIff(tracks[i], c.StagedFor(TrackId(tracks[i])));
    }
  }

  /** After an accepted commit nothing is staged, and the playlists are shown as they were written:
      new rows under the dataset they were filed in. */
  lemma CommitPlaylists(c: Cache, id: int, dataset: int)
    requires c.loaded && c.buckets.OwnTags() && forall row | row in c.playlists :: Fileable(row)
    ensures !Committed(c).HasPending() && Committed(c).buckets.OwnTags()
    ensures ViewAt(LivePlaylists(Committed(c)), id, dataset) == ViewAt(View(c.buckets, TagAll(c.playlists)), id, dataset)
  {
    hide CommitAll;
    hide ViewAt;
    hide Fileable;
    hide ShowAll;
    CommitMatchesOverlay(c.buckets, c.playlists, id, dataset);
  }

  /** The live library is a list of distinct records with distinct ids. */
  ghost predicate Distinct(c: Cache) {
    && (forall i, j | 0 <= i < j < |c.library| :: c.library[i] != c.library[j])
    && (forall t | t in c.library :: t in c.rows)
    && (forall s, t | s in c.library && t in c.library && s != t && TrackId(c.rows[s]) != 0 ::
          TrackId(c.rows[s]) != TrackId(c.rows[t]))
  }

  /** `t` is a live record, or one whose id no live record has. */
  ghost predicate Live(c: Cache, t: nat) {
    t in c.rows ==> t in c.library || forall s | s in c.library && s in c.rows :: TrackId(c.rows[s]) != TrackId(c.rows[t])
  }

  ghost predicate KeepsIds(changes: Changes) {
    TRACK_ID !in changes && OLD_TRACK_ID !in changes
  }

  lemma EditTrackIds(c: Cache, t: nat, changes: Changes)
    requires Distinct(c) && KeepsIds(changes)
    ensures var d := EditTrack(c, t, changes);
      && Distinct(d) && d.library == c.library && d.rows.Keys == c.rows.Keys && d.loaded == c.loaded
      && (forall s | s in c.rows :: TrackId(d.rows[s]) == TrackId(c.rows[s]))
  {
    hide TrackId;
    hide Restaged;
    if t in c.rows { SameId(c.rows[t], changes); }
  }

  lemma SameId(row: Row, changes: Changes)
    requires KeepsIds(changes)
    ensures TrackId(row + changes) == TrackId(row)
  {
  }

  /** Faithfulness, record by record: the staged changes of every live record are in it. */
  ghost predicate FaithfulRows(c: Cache)
    requires Distinct(c)
  {
    forall t | t in c.library && TrackId(c.rows[t]) != 0 :: Reflects(c.rows[t], c.StagedFor(TrackId(c.rows[t])))
  }

  lemma FaithfulByRow(c: Cache)
    requires Distinct(c) && c.loaded
    ensures FaithfulRows(c) <==> Faithful(c)
  {
    hide TrackId;
    hide Reflects;
    var tracks := LiveTracks(c);
    assert forall i | 0 <= i < |tracks| :: c.library[i] in c.library && tracks[i] == c.rows[c.library[i]];
    forall i | 0 <= i < |tracks| ensures LastWithId(tracks, i) <==> TrackId(tracks[i]) != 0 {
      assert forall j | i < j < |tracks| :: c.library[j] != c.library[i];
    }
    if Faithful(c) {
      forall t | t in c.library && TrackId(c.rows[t]) != 0 ensures Reflects(c.rows[t], c.StagedFor(TrackId(c.rows[t]))) {
        var i :| 0 <= i < |c.library| && c.library[i] == t;
      }
    }
  }

  lemma EditTrackFaithful(c: Cache, t: nat, changes: Changes)
    requires Distinct(c) && FaithfulRows(c) && Live(c, t) && KeepsIds(changes)
    ensures Distinct(EditTrack(c, t, changes)) && FaithfulRows(EditTrack(c, t, changes))
  {
    hide TrackId;
    EditTrackIds(c, t, changes);
  }

  /** Editing live records keeps every staged change in its live row. */
  lemma {:induction false} FlagsFaithful(c: Cache, targets: seq<nat>, changes: Changes)
    requires Distinct(c) && FaithfulRows(c) && KeepsIds(changes) && forall t | t in targets :: Live(c, t)
    ensures var d := EditTracks(c, targets, changes);
      && Distinct(d) && FaithfulRows(d) && d.library == c.library && d.rows.Keys == c.rows.Keys && d.loaded == c.loaded
      && (forall s | s in c.rows :: TrackId(d.rows[s]) == TrackId(c.rows[s]))
  {
    hide TrackId;
    hide FaithfulRows;
    hide EditTrack;
    if targets != [] {
      var front, t := targets[..|targets| - 1], targets[|targets| - 1];
      FlagsFaithful(c, front, changes);
      assert Live(c, t);
      EditTrackIds(EditTracks(c, front, changes), t, changes);
      EditTrackFaithful(EditTracks(c, front, changes), t, changes);
    }
  }

  lemma ArtTrackFaithful(c: Cache, t: nat, path: string)
    requires Distinct(c) && FaithfulRows(c)
    ensures Distinct(EditArtwork(c, t, path)) && FaithfulRows(EditArtwork(c, t, path))
  {
    hide TrackId;
    if t in c.rows {
      var pending: Changes := map[PENDING_ART := Text(path)];
      assert c.rows[t][PENDING_ART := Text(path)] == c.rows[t] + pending;
      SameId(c.rows[t], pending);
    }
  }

  lemma {:induction false} ArtFaithful(c: Cache, targets: seq<nat>, path: string)
    requires Distinct(c) && FaithfulRows(c)
    ensures var d := EditArtworks(c, targets, path);
            Distinct(d) && FaithfulRows(d) && d.loaded == c.loaded
  {
    hide TrackId;
    hide FaithfulRows;
    hide Distinct;
    if targets != [] {
      ArtFaithful(c, targets[..|targets| - 1], path);
      ArtTrackFaithful(EditArtworks(c, targets[..|targets| - 1], path), targets[|targets| - 1], path);
    }
  }

  /** What an edit must respect: it edits live records and leaves ids alone. */
  ghost predicate Proper(c: Cache, e: Edit) {
    e.Flags? ==> KeepsIds(e.changes) && forall t | t in e.targets :: Live(c, t)
  }

  /** Every operation on live records keeps a capture faithful. */
  lemma ApplyFaithful(c: Cache, e: Edit)
    requires Distinct(c) && FaithfulRows(c) && Proper(c, e)
    ensures Distinct(Apply(c, e)) && FaithfulRows(Apply(c, e)) && Apply(c, e).loaded == c.loaded
  {
    hide TrackId;
    hide SaveTargets;
    hide CommitAll;
    hide StageAll;
    hide EditTracks;
    hide EditArtworks;
    match e {
      case Flags(targets, changes) => FlagsFaithful(c, targets, changes);
      case Art(targets, path) => ArtFaithful(c, targets, path);
      case _ =>
    }
  }

  /** Editing a copy of a live record stages a change that the live record does not have: the
      change is written, and the cache goes on without it after the commit. */
  lemma DetachedEditLost(c: Cache, t: nat, live: nat, key: string, value: Value)
    requires Distinct(c) && c.loaded && c.edits == map[]
    requires t in c.rows && t !in c.library && live in c.library && TrackId(c.rows[t]) == TrackId(c.rows[live]) != 0
    requires key !in {TRACK_ID, OLD_TRACK_ID, PENDING_ART} && !(key in c.rows[live] && c.rows[live][key] == value)
    ensures !Faithful(UpdateFlags(c, [t], map[key := value]))
  {
    hide TrackId;
    var changes := map[key := value];
    var front := [t][..|[t]| - 1];
    assert front == [] && EditTracks(c, front, changes) == c;
    assert EditTracks(c, [t], changes) == EditTrack(EditTracks(c, front, changes), t, changes);
    var d := EditTrack(c, t, changes);
    EditTrackIds(c, t, changes);
    FaithfulByRow(d);
    assert key in d.StagedFor(TrackId(c.rows[t])) && d.StagedFor(TrackId(c.rows[t]))[key].after == value;
    assert !FaithfulRows(d);
    var u := UpdateFlags(c, [t], changes);
    assert u == d.(revision := u.revision);
    assert LiveTracks(u) == LiveTracks(d);
  }

  lemma {:induction false} EditsStage(c: Cache, targets: seq<nat>, changes: Changes)
    ensures var d := EditTracks(c, targets, changes);
      && d.artwork == c.artwork && d.playlists == c.playlists
      && (c.edits != map[] || AnyEdited(c, targets, changes) ==> d.edits != map[])
  {
    hide TrackId;
    hide Restaged;
    if targets != [] {
      EditsStage(c, targets[..|targets| - 1], changes);
      var before, t := EditTracks(c, targets[..|targets| - 1], changes), targets[|targets| - 1];
      if t in before.rows && TrackId(before.rows[t]) != 0 {
        assert TrackId(before.rows[t]) in EditTracks(c, targets, changes).edits;
      }
    }
  }

  predicate HasId(c: Cache, t: nat) {
    t in c.rows && TrackId(c.rows[t]) != 0
  }

  lemma {:induction false} AnyIdEdited(c: Cache, targets: seq<nat>)
    ensures AnyEdited(c, targets, map[]) <==> exists t :: t in targets && HasId(c, t)
  {
    hide TrackId;
    if targets != [] {
      var front, t := targets[..|targets| - 1], targets[|targets| - 1];
      AnyIdEdited(c, front);
      NothingChanged(c, front);
      assert HasId(EditTracks(c, front, map[]), t) <==> HasId(c, t);
      assert forall u :: u in targets <==> u in front || u == t;
    }
  }

  /** Exactly when an edit makes a write pending under the revision of what was already written: it
      changes nothing, for a track with an id, and nothing was pending. A capture shows nothing new. */
  lemma EmptyEditPendsIff(c: Cache, targets: seq<nat>, changes: Changes)
    ensures var d := UpdateFlags(c, targets, changes);
      && (!c.HasPending() && d.HasPending() && d.revision == c.revision
          <==> !c.HasPending() && changes == map[] && exists t :: t in targets && HasId(c, t))
      && (changes == map[] ==> d.revision == c.revision && Capture(d) == Capture(c))
  {
    hide Capture;
    hide TrackId;
    hide HasId;
    var d := UpdateFlags(c, targets, changes);
    EditsKeepRevision(c, targets, changes);
    EditsStage(c, targets, changes);
    if changes == map[] {
      NothingChanged(c, targets);
      SameCapture(c, d);
      AnyIdEdited(c, targets);
    }
    if !AnyEdited(c, targets, changes) {
      NothingEdited(c, targets, changes);
    }
  }

  /** A library as it is parsed from the device. */
  datatype Library = Library(rows: map<nat, Row>, library: seq<nat>, buckets: Buckets)

  /** `reload_after_itunesdb_write`, up to the point where the database has been parsed again. */
  function Reloaded(c: Cache, parsed: Library): Cache {
    Discard(c).(loaded := true, rows := parsed.rows, library := parsed.library, buckets := parsed.buckets)
  }
}
