/** The quick-write protocol: capture the cache, write it to the device, then commit the staged
    edits or, if the cache has moved on, write again. */
module QuickWriteProtocol {
  import opened Outcomes
  import opened PlaylistRows
  import opened PlaylistOverlay
  import opened PlaylistTags
  import opened CommitExact
  import opened CacheModel
  import opened OrderlyCache

  /** A write under way. */
  datatype Writing = Writing(image: Image, revision: nat) {
    /** Whether a reported success goes on to commit; artwork writes reload instead. */
    predicate Commits(success: bool) {
      success && image.artwork == map[]
    }
  }

  /** The cache, the write under way, results not yet delivered to the controller (true when newer
      changes are pending), and whether the controller will write again regardless. `device` is what
      was written last, and `written` the revision at which the device had everything. */
  datatype System = System(cache: Cache, writing: Option<Writing>, results: seq<bool>, force: bool, device: Image, written: nat)

  /** `start_quick_write` */
  function Start(s: System): System {
    if s.writing.Some? || !(s.cache.HasPending() || s.force) then s
    else s.(writing := Some(Writing(Capture(s.cache), s.cache.revision)), force := false)
  }

  /** The end of `QuickWriteWorker.run` */
  function Finish(s: System, success: bool, parsed: Library): System
    requires s.writing.Some?
  {
    var w := s.writing.value;
    if w.Commits(success) then
      var accepted := w.revision == s.cache.revision;
      var cache := Apply(s.cache, Commit(w.revision));
      s.(cache := cache, writing := None, results := s.results + [!accepted], device := w.image,
         written := if accepted then cache.revision else s.written)
    else
      var cache := Reloaded(s.cache, parsed);
      s.(cache := cache, writing := None, results := s.results + [false], device := Capture(cache), written := cache.revision)
  }

  /** `_on_quick_write_done`; it waits for any write under way first. */
  function Deliver(s: System): System
    requires s.results != [] && s.writing.None?
  {
    s.(results := s.results[1..], force := s.force || s.results[0])
  }

  datatype Step =
    | Edited(edit: Edit)
    | Started
    | Finished(success: bool, parsed: Library)
    | Delivered

  predicate Enabled(s: System, step: Step) {
    match step
    case Edited(edit) => !edit.Commit?
    case Started => true
    case Finished(_, _) => s.writing.Some?
    case Delivered => s.results != [] && s.writing.None?
  }

  function Next(s: System, step: Step): System
    requires Enabled(s, step)
  {
    match step
    case Edited(edit) => s.(cache := Apply(s.cache, edit))
    case Started => Start(s)
    case Finished(success, parsed) => Finish(s, success, parsed)
    case Delivered => Deliver(s)
  }

  ghost predicate IsRun(run: seq<System>, steps: seq<Step>) {
    |run| == |steps| + 1 && forall i | 0 <= i < |steps| :: StepAt(run, steps, i)
  }

  ghost predicate StepAt(run: seq<System>, steps: seq<Step>, i: nat)
    requires i < |steps| && |run| == |steps| + 1
  {
    Enabled(run[i], steps[i]) && run[i + 1] == Next(run[i], steps[i])
  }

  /** The same tracks, and the same content for every playlist of every dataset, new playlists
      counting as playlists of the dataset they are filed in. */
  ghost predicate SameLibrary(image: Image, c: Cache) {
    && image.tracks == Capture(c).tracks
    && forall id, dataset :: ViewAt(TagAll(image.playlists), id, dataset) == ViewAt(TagAll(LivePlaylists(c)), id, dataset)
  }

  ghost predicate Initial(s: System) {
    s.writing.None? && s.results == [] && !s.force && !s.cache.HasPending()
    && s.written == s.cache.revision && SameLibrary(s.device, s.cache)
  }

  /** A write under way carries what its revision names. */
  ghost predicate Traced(s: System) {
    s.writing.Some? ==>
      && s.writing.value.revision <= s.cache.revision
      && (s.writing.value.revision == s.cache.revision ==> s.writing.value.image == Capture(s.cache))
  }

  lemma NextTraced(s: System, step: Step)
    requires Traced(s) && Enabled(s, step)
    ensures Traced(Next(s, step))
  {
    hide Capture;
    hide Apply;
    if step.Edited? {
      RevisionStep(s.cache, step.edit);
    }
  }

  lemma {:induction false} RunTraced(run: seq<System>, steps: seq<Step>, k: nat)
    requires IsRun(run, steps) && Initial(run[0]) && k < |run|
    ensures Traced(run[k])
  {
    hide Traced;
    hide Next;
    hide Enabled;
    if k == 0 {
      InitialTraced(run[0]);
    } else {
      RunTraced(run, steps, k - 1);
      assert StepAt(run, steps, k - 1);
      NextTraced(run[k - 1], steps[k - 1]);
    }
  }

  lemma InitialTraced(s: System)
    requires Initial(s)
    ensures Traced(s)
  {
  }

  /** A step that keeps the cache in order: edits of live records, saves that can be filed, and, where
      the end of a write reloads the library, one that was parsed in order. */
  ghost predicate Sound(s: System, step: Step) {
    match step
    case Edited(edit) => Proper(s.cache, edit) && (edit.Save? ==> SoundSave(s.cache, edit.row, edit.newId))
    case Finished(success, parsed) => s.writing.Some? && !s.writing.value.Commits(success) ==> OrderlyLibrary(parsed)
    case _ => true
  }

  ghost predicate SoundSteps(run: seq<System>, steps: seq<Step>)
    requires |run| == |steps| + 1
  {
    forall i | 0 <= i < |steps| :: Sound(run[i], steps[i])
  }

  lemma NextOrderly(s: System, step: Step)
    requires Orderly(s.cache) && Enabled(s, step) && Sound(s, step)
    ensures Orderly(Next(s, step).cache)
  {
    hide Orderly;
    hide OrderlyLibrary;
    hide SoundSave;
    hide Capture;
    hide Apply;
    match step {
      case Edited(edit) => ApplyOrderly(s.cache, edit);
      case Finished(success, parsed) =>
        if !s.writing.value.Commits(success) {
          ReloadOrderly(s.cache, parsed);
        }
        CommitOrderly(s.cache);
        ApplyCommit(s.cache, s.writing.value.revision);
      case _ =>
    }
  }

  lemma ApplyCommit(c: Cache, expected: nat)
    ensures Apply(c, Commit(expected)) == if expected == c.revision then Committed(c) else c
  {
  }

  /** In every run of such steps the cache stays in order. */
  lemma {:induction false} RunOrderly(run: seq<System>, steps: seq<Step>, k: nat)
    requires IsRun(run, steps) && Orderly(run[0].cache) && SoundSteps(run, steps) && k < |run|
    ensures Orderly(run[k].cache)
  {
    hide Orderly;
    hide Next;
    hide Enabled;
    hide Sound;
    if k > 0 {
      RunOrderly(run, steps, k - 1);
      assert StepAt(run, steps, k - 1);
      NextOrderly(run[k - 1], steps[k - 1]);
    }
  }

  /** Committing keeps what the cache shows. */
  lemma CommitKeepsLibrary(c: Cache)
    requires Orderly(c)
    ensures SameLibrary(Capture(c), Committed(c)) && !Committed(c).HasPending()
  {
    hide TrackId;
    hide CommitAll;
    hide ViewAt;
    hide View;
    hide Fileable;
    hide FaithfulRows;
    hide Apart;
    hide ShowAll;
    FaithfulByRow(c);
    CommitTracksIff(c);
    CommitOrderly(c);
    var d := Committed(c);
    assert forall i | 0 <= i < |LiveTracks(d)| :: Capture(d).tracks[i] == LiveTracks(d)[i] - {PENDING_ART};
    assert Capture(d).tracks == Capture(c).tracks;
    NothingApart(d.buckets);
    TagView(d.buckets, []);
  }

  /** The image is the live library: every live record without the path of a pending image, and for
      every id and dataset what the database has. */
  ghost predicate IsLive(image: Image, c: Cache) {
    && |image.tracks| == |c.library|
    && (forall i | 0 <= i < |c.library| ::
          c.library[i] in c.rows && image.tracks[i] == c.rows[c.library[i]] - {PENDING_ART})
    && forall id, dataset :: ViewAt(TagAll(image.playlists), id, dataset) == Held(c.buckets.At(dataset), id, dataset)
  }

  /** With nothing staged, the same library is the live one. */
  lemma SameIsLive(image: Image, c: Cache)
    requires SameLibrary(image, c) && Distinct(c) && c.loaded && !c.HasPending()
    ensures IsLive(image, c)
  {
    hide TrackId;
    hide ViewAt;
    hide Held;
    hide ShowAll;
    NothingApart(c.buckets);
    TagView(c.buckets, []);
    assert LivePlaylists(c) == ShowAll(c.buckets);
    forall id, dataset ensures ViewAt(TagAll(image.playlists), id, dataset) == Held(c.buckets.At(dataset), id, dataset) {
      HeldView(c.buckets, id, dataset);
    }
  }

  /** In every run of sound steps, a write whose commit is accepted wrote exactly the live cache, in
      which no image was staged, and leaves nothing staged. */
  lemma AcceptedCommit(run: seq<System>, steps: seq<Step>, k: nat)
    requires IsRun(run, steps) && Initial(run[0]) && Orderly(run[0].cache) && SoundSteps(run, steps)
    requires k < |steps| && steps[k].Finished? && Enabled(run[k], steps[k])
    requires run[k].writing.value.Commits(steps[k].success) && run[k].writing.value.revision == run[k].cache.revision
    ensures var before, after := run[k], Next(run[k], steps[k]);
      && before.writing.value.image == Capture(before.cache) == after.device
      && before.cache.artwork == map[]
      && SameLibrary(after.device, after.cache) && IsLive(after.device, after.cache)
      && !after.cache.HasPending() && after.results == before.results + [false]
  {
    hide Capture;
    hide SameLibrary;
    hide IsLive;
    hide Orderly;
    hide Sound;
    hide CommitAll;
    RunTraced(run, steps, k);
    RunOrderly(run, steps, k);
    CommitKeepsLibrary(run[k].cache);
    CommitOrderly(run[k].cache);
    CapturedArtwork(run[k].cache);
    OrderlyParts(Committed(run[k].cache));
    SameIsLive(Capture(run[k].cache), Committed(run[k].cache));
  }

  lemma CapturedArtwork(c: Cache)
    ensures Capture(c).artwork == c.artwork
  {
  }

  lemma OrderlyParts(c: Cache)
    requires Orderly(c)
    ensures Distinct(c) && c.loaded
  {
  }

  /** Something has changed since the device had everything. */
  predicate Behind(s: System) {
    s.cache.revision > s.written
  }

  /** A write is staged, forced, under way, or about to be forced. */
  predicate Scheduled(s: System) {
    s.cache.HasPending() || Forced(s)
  }

  predicate Forced(s: System) {
    s.force || s.writing.Some? || true in s.results
  }

  /** A step that leaves a trace of what it changed: edits that stage something, or, while a write
      is forced or under way, any edit at all. */
  predicate Recorded(s: System, step: Step) {
    step.Edited? ==> step.edit.Flags? || step.edit.Art? || step.edit.Save? || Forced(s)
  }

  lemma {:induction false} ArtStages(c: Cache, targets: seq<nat>, path: string)
    ensures var d := EditArtworks(c, targets, path);
      && d.edits == c.edits && d.playlists == c.playlists
      && (c.artwork != map[] || AnyArtwork(c, targets, path) ==> d.artwork != map[])
  {
    hide TrackId;
    if targets != [] {
      var front, t := targets[..|targets| - 1], targets[|targets| - 1];
      ArtStages(c, front, path);
      var before := EditArtworks(c, front, path);
      if t in before.rows && TrackId(before.rows[t]) != 0 {
        assert TrackId(before.rows[t]) in EditArtworks(c, targets, path).artwork;
      }
    }
  }

  lemma SomethingStaged(staged: seq<Row>, targets: seq<Row>)
    requires staged != [] || targets != []
    ensures StageAll(staged, targets) != []
  {
    hide Index;
    hide Counted;
    if targets != [] {
      var before, row := StageAll(staged, targets[..|targets| - 1]), Counted(targets[|targets| - 1]);
      IndexSpec(before, Id(row), {Dataset(row)});
    }
  }

  /** An edit that changes the revision leaves something staged. */
  lemma EditPends(c: Cache, e: Edit)
    requires e.Flags? || e.Art? || e.Save?
    ensures c.HasPending() || Apply(c, e).revision > c.revision ==> Apply(c, e).HasPending()
  {
    hide SaveTargets;
    hide StageAll;
    hide TrackId;
    hide EditTrack;
    hide EditArtwork;
    match e {
      case Flags(targets, changes) =>
        EditsStage(c, targets, changes);
        EditsKeepRevision(c, targets, changes);
      case Art(targets, path) =>
        ArtStages(c, targets, path);
        ArtworksKeepRevision(c, targets, path);
      case Save(row, newId) =>
        var d := SavePlaylist(c, row, newId);
        if d != c {
          SomethingStaged(c.playlists, SaveTargets(Named(row, newId), Data(c)));
        }
    }
  }

  /** Nothing is forgotten: once the cache is ahead of the device, a write stays scheduled until one
      is accepted. */
  lemma NextScheduled(s: System, step: Step)
    requires (Behind(s) ==> Scheduled(s)) && Enabled(s, step) && Recorded(s, step)
    ensures Behind(Next(s, step)) ==> Scheduled(Next(s, step))
  {
    hide Capture;
    hide Apply;
    match step {
      case Edited(edit) =>
        RevisionStep(s.cache, edit);
        if !Forced(s) {
          EditPends(s.cache, edit);
        }
      case Started =>
      case Finished(success, parsed) =>
        if s.writing.value.Commits(success) {
          var after := Finish(s, success, parsed);
          if s.writing.value.revision != s.cache.revision {
            assert after.results[|s.results|] == true;
          }
        }
      case Delivered =>
        assert s.results == [s.results[0]] + s.results[1..];
    }
  }

  /** What the device holds is what the cache shows, as long as nothing changed since. */
  ghost predicate DeviceCurrent(s: System) {
    && s.written <= s.cache.revision
    && (s.written == s.cache.revision ==> SameLibrary(s.device, s.cache))
    && (s.writing.Some? ==> s.written <= s.writing.value.revision)
  }

  lemma SelfSame(c: Cache)
    ensures SameLibrary(Capture(c), c)
  {
  }

  lemma SameAsCaptured(image: Image, c: Cache, d: Cache)
    requires SameLibrary(image, c) && Capture(d) == Capture(c)
    ensures SameLibrary(image, d)
  {
    hide ViewAt;
    assert LivePlaylists(d) == Capture(d).playlists;
    assert LivePlaylists(c) == Capture(c).playlists;
  }

  lemma NextCurrent(s: System, step: Step)
    requires DeviceCurrent(s) && Traced(s) && Enabled(s, step) && Orderly(s.cache)
    ensures DeviceCurrent(Next(s, step))
  {
    hide Capture;
    hide SameLibrary;
    hide Apply;
    hide Orderly;
    match step {
      case Edited(edit) =>
        RevisionStep(s.cache, edit);
        var after := Apply(s.cache, edit);
        if after.revision == s.cache.revision == s.written {
          SameAsCaptured(s.device, s.cache, after);
        }
      case Started =>
      case Finished(success, parsed) =>
        FinishCurrent(s, success, parsed);
      case Delivered =>
    }
  }

  lemma FinishCurrent(s: System, success: bool, parsed: Library)
    requires DeviceCurrent(s) && Traced(s) && s.writing.Some? && Orderly(s.cache)
    ensures DeviceCurrent(Finish(s, success, parsed))
  {
    hide Capture;
    hide SameLibrary;
    hide Orderly;
    hide CommitAll;
    var w := s.writing.value;
    if !w.Commits(success) {
      SelfSame(Reloaded(s.cache, parsed));
    } else if w.revision == s.cache.revision {
      CommitKeepsLibrary(s.cache);
    }
  }

  /** From any state without a write or an undelivered result: nothing starts exactly when nothing is
      staged and no write is forced; otherwise one write with no edits while it runs leaves nothing
      staged, nothing forced and nothing to write, whether it succeeds or not. */
  lemma OneWriteSettles(s: System, success: bool, parsed: Library)
    requires s.writing.None? && s.results == []
    ensures Start(s).writing.None? <==> !Scheduled(s)
    ensures Start(s).writing.None? ==> Start(s) == s
    ensures Scheduled(s) ==>
              var end := Finish(Start(s), success, parsed);
              && end.writing.None? && end.results == [false]
              && !Scheduled(Deliver(end)) && Deliver(end).results == [] && Start(Deliver(end)) == Deliver(end)
  {
    hide Capture;
    hide CommitAll;
    if Scheduled(s) {
      var end := Finish(Start(s), success, parsed);
      assert end.results == [false] && end.results[1..] == [];
    }
  }

  lemma QuietIsLive(s: System)
    requires DeviceCurrent(s) && Orderly(s.cache) && !Behind(s) && !Scheduled(s)
    ensures IsLive(s.device, s.cache)
  {
    hide SameLibrary;
    hide IsLive;
    hide Orderly;
    OrderlyParts(s.cache);
    SameIsLive(s.device, s.cache);
  }

  /** Over every run of edits that are recorded, with writes started, finished and delivered in any
      order: when nothing is scheduled, the device holds exactly what the cache shows. */
  lemma {:induction false} QuietMeansWritten(run: seq<System>, steps: seq<Step>, k: nat)
    requires IsRun(run, steps) && Initial(run[0]) && Orderly(run[0].cache) && SoundSteps(run, steps) && k < |run|
    requires forall i | 0 <= i < |steps| :: Recorded(run[i], steps[i])
    ensures DeviceCurrent(run[k]) && (Behind(run[k]) ==> Scheduled(run[k]))
    ensures !Scheduled(run[k]) ==> SameLibrary(run[k].device, run[k].cache) && IsLive(run[k].device, run[k].cache)
  {
    hide Traced;
    hide Next;
    hide Enabled;
    hide Recorded;
    hide SameLibrary;
    hide Scheduled;
    hide Orderly;
    hide Sound;
    hide IsLive;
    if k == 0 {
      assert !Behind(run[0]);
    } else {
      QuietMeansWritten(run, steps, k - 1);
      RunTraced(run, steps, k - 1);
      RunOrderly(run, steps, k - 1);
      assert StepAt(run, steps, k - 1);
      NextCurrent(run[k - 1], steps[k - 1]);
      NextScheduled(run[k - 1], steps[k - 1]);
    }
    RunOrderly(run, steps, k);
    if !Scheduled(run[k]) {
      QuietIsLive(run[k]);
    }
  }

  /** The cache after the edits among these steps. */
  function Replay(c: Cache, steps: seq<Step>): Cache {
    if steps == [] then c
    else
      var before, last := Replay(c, steps[..|steps| - 1]), steps[|steps| - 1];
      if last.Edited? then Apply(before, last.edit) else before
  }

  ghost predicate NoneEnds(steps: seq<Step>) {
    forall i | 0 <= i < |steps| :: !steps[i].Finished?
  }

  /** No edit takes staged ones back. */
  ghost predicate OnlyStage(steps: seq<Step>) {
    forall i | 0 <= i < |steps| && steps[i].Edited? :: steps[i].edit.Flags? || steps[i].edit.Art? || steps[i].edit.Save?
  }

  /** Whatever was staged in `c` is staged in `d`, perhaps with a newer value. */
  ghost predicate StillStaged(c: Cache, d: Cache) {
    FieldsStaged(c.edits, d.edits) && c.artwork.Keys <= d.artwork.Keys && RowsStaged(c.playlists, d.playlists)
  }

  ghost predicate FieldsStaged(before: map<int, Staged>, after: map<int, Staged>) {
    forall id | id in before :: id in after && FieldsKept(before[id], after[id])
  }

  ghost predicate FieldsKept(before: Staged, after: Staged) {
    forall key | key in before :: key in after && after[key].before == before[key].before
  }

  ghost predicate RowsStaged(before: seq<Row>, after: seq<Row>) {
    forall row | row in before :: HasKey(after, Id(row), Dataset(row))
  }

  ghost predicate HasKey(rows: seq<Row>, id: int, dataset: int) {
    exists row :: row in rows && Id(row) == id && Dataset(row) == dataset
  }

  lemma StillSelf(c: Cache)
    ensures StillStaged(c, c)
  {
    forall row | row in c.playlists ensures HasKey(c.playlists, Id(row), Dataset(row)) { }
  }

  lemma StillTrans(c: Cache, d: Cache, e: Cache)
    requires StillStaged(c, d) && StillStaged(d, e)
    ensures StillStaged(c, e)
  {
    hide Id;
    hide Dataset;
    forall row | row in c.playlists ensures HasKey(e.playlists, Id(row), Dataset(row)) {
      assert HasKey(d.playlists, Id(row), Dataset(row));
      var kept :| kept in d.playlists && Id(kept) == Id(row) && Dataset(kept) == Dataset(row);
      assert HasKey(e.playlists, Id(kept), Dataset(kept));
    }
  }

  lemma NothingStill(c: Cache, d: Cache)
    requires c.HasPending() && !d.HasPending()
    ensures !StillStaged(c, d)
  {
    if c.playlists != [] {
      assert c.playlists[0] in c.playlists && !HasKey(d.playlists, Id(c.playlists[0]), Dataset(c.playlists[0]));
    }
    if FieldsStaged(c.edits, d.edits) {
      forall id ensures id !in c.edits { assert id in c.edits ==> id in d.edits; }
      assert c.edits.Keys == {};
      assert c.edits == map[];
    }
    assert c.artwork.Keys <= d.artwork.Keys ==> c.artwork == map[];
  }

  lemma TrackStill(c: Cache, t: nat, changes: Changes)
    ensures StillStaged(c, EditTrack(c, t, changes))
  {
    hide TrackId;
    hide HasKey;
    hide FieldsKept;
    StillSelf(c);
    var d := EditTrack(c, t, changes);
    if d != c {
      var row := c.rows[t];
      RestagedKept(c.StagedFor(TrackId(row)), row, changes);
      forall id | id in c.edits ensures id in d.edits && FieldsKept(c.edits[id], d.edits[id]) {
        assert FieldsKept(c.edits[id], c.edits[id]);
      }
    }
  }

  lemma RestagedKept(staged: Staged, row: Row, changes: Changes)
    ensures FieldsKept(staged, Restaged(staged, row, changes))
  {
  }

  lemma {:induction false} FlagsStill(c: Cache, targets: seq<nat>, changes: Changes)
    ensures StillStaged(c, EditTracks(c, targets, changes))
  {
    hide StillStaged;
    hide EditTrack;
    if targets == [] {
      StillSelf(c);
    } else {
      var front := targets[..|targets| - 1];
      FlagsStill(c, front, changes);
      TrackStill(EditTracks(c, front, changes), targets[|targets| - 1], changes);
      StillTrans(c, EditTracks(c, front, changes), EditTracks(c, targets, changes));
    }
  }

  lemma {:induction false} ArtStill(c: Cache, targets: seq<nat>, path: string)
    ensures StillStaged(c, EditArtworks(c, targets, path))
  {
    hide TrackId;
    hide HasKey;
    StillSelf(c);
    if targets != [] {
      ArtStill(c, targets[..|targets| - 1], path);
    }
  }

  lemma StageStill(staged: seq<Row>, t: Row)
    ensures RowsStaged(staged, Stage(staged, t))
  {
    hide Index;
    hide Counted;
    hide Id;
    hide Dataset;
    var row, after := Counted(t), Stage(staged, t);
    IndexSpec(staged, Id(row), {Dataset(row)});
    var i := Index(staged, Id(row), {Dataset(row)});
    forall x | x in staged ensures HasKey(after, Id(x), Dataset(x)) {
      var j :| 0 <= j < |staged| && staged[j] == x;
      assert after[j] in after && Id(after[j]) == Id(x) && Dataset(after[j]) == Dataset(x);
    }
  }

  lemma {:induction false} SaveStill(staged: seq<Row>, targets: seq<Row>)
    ensures RowsStaged(staged, StageAll(staged, targets))
  {
    hide Stage;
    hide Id;
    hide Dataset;
    if targets == [] {
      forall x | x in staged ensures HasKey(staged, Id(x), Dataset(x)) { }
    } else {
      var before := StageAll(staged, targets[..|targets| - 1]);
      SaveStill(staged, targets[..|targets| - 1]);
      StageStill(before, targets[|targets| - 1]);
      forall x | x in staged ensures HasKey(StageAll(staged, targets), Id(x), Dataset(x)) {
        assert HasKey(before, Id(x), Dataset(x));
        var y :| y in before && Id(y) == Id(x) && Dataset(y) == Dataset(x);
        assert HasKey(StageAll(staged, targets), Id(y), Dataset(y));
      }
    }
  }

  /** Staging more never takes back what is staged. */
  lemma EditStill(c: Cache, e: Edit)
    requires e.Flags? || e.Art? || e.Save?
    ensures StillStaged(c, Apply(c, e))
  {
    hide EditTracks;
    hide EditArtworks;
    hide StageAll;
    hide SaveTargets;
    hide FieldsStaged;
    hide RowsStaged;
    StillSelf(c);
    match e {
      case Flags(targets, changes) => FlagsStill(c, targets, changes);
      case Art(targets, path) => ArtStill(c, targets, path);
      case Save(row, newId) => SaveStill(c.playlists, SaveTargets(Named(row, newId), Data(c)));
    }
  }

  lemma {:induction false} ReplayStill(c: Cache, steps: seq<Step>)
    requires OnlyStage(steps)
    ensures StillStaged(c, Replay(c, steps))
  {
    hide StillStaged;
    hide Apply;
    if steps == [] {
      StillSelf(c);
    } else {
      var front, last := steps[..|steps| - 1], steps[|steps| - 1];
      assert forall i | 0 <= i < |front| :: front[i] == steps[i];
      ReplayStill(c, front);
      if last.Edited? {
        EditStill(Replay(c, front), last.edit);
        StillTrans(c, Replay(c, front), Replay(c, steps));
      }
    }
  }

  /** A write started among steps `from..to`, for what the cache held then. */
  ghost predicate StartedAt(run: seq<System>, steps: seq<Step>, j: nat, writing: Option<Writing>)
    requires j < |steps| && |run| == |steps| + 1
  {
    steps[j].Started? && writing == Some(Writing(Capture(run[j].cache), run[j].cache.revision))
  }

  /** Between two ends of writes, only edits change the cache. */
  lemma {:induction false} Between(run: seq<System>, steps: seq<Step>, a: nat, b: nat)
    requires IsRun(run, steps) && a <= b < |run| && NoneEnds(steps[a..b])
    ensures run[b].cache == Replay(run[a].cache, steps[a..b])
    ensures run[a].cache.revision <= run[b].cache.revision
    ensures run[a].writing.Some? ==> run[b].writing == run[a].writing
    ensures run[a].writing.None? && run[b].writing.Some? ==>
              exists j | a <= j < b :: StartedAt(run, steps, j, run[b].writing)
    ensures Forced(run[a]) ==> Forced(run[b])
    decreases b
  {
    hide Capture;
    hide Apply;
    hide StartedAt;
    if a < b {
      var part := steps[a..b];
      assert part[..|part| - 1] == steps[a..b - 1] && part[|part| - 1] == steps[b - 1];
      assert forall i | 0 <= i < |steps[a..b - 1]| :: steps[a..b - 1][i] == part[i];
      Between(run, steps, a, b - 1);
      assert StepAt(run, steps, b - 1);
      BetweenStep(run[b - 1], steps[b - 1]);
      if run[b - 1].writing.None? && run[b].writing.Some? {
        StartsWrite(run, steps, b - 1);
      }
    } else {
      assert steps[a..b] == [];
    }
  }

  lemma StartsWrite(run: seq<System>, steps: seq<Step>, j: nat)
    requires j < |steps| && |run| == |steps| + 1 && StepAt(run, steps, j)
    requires run[j].writing.None? && run[j + 1].writing.Some?
    ensures StartedAt(run, steps, j, run[j + 1].writing)
  {
    hide Capture;
    hide Apply;
  }

  lemma BetweenStep(s: System, step: Step)
    requires Enabled(s, step) && !step.Finished?
    ensures var after := Next(s, step);
      && after.cache == Replay(s.cache, [step])
      && s.cache.revision <= after.cache.revision
      && (s.writing.Some? ==> after.writing == s.writing)
      && (Forced(s) ==> Forced(after))
      && after.cache == if step.Edited? then Apply(s.cache, step.edit) else s.cache
  {
    hide Capture;
    hide Apply;
    assert [step][..0] == [] && Replay(s.cache, [step][..0]) == s.cache;
    match step {
      case Edited(edit) => RevisionStep(s.cache, edit);
      case Started =>
      case Delivered => assert s.results == [s.results[0]] + s.results[1..];
    }
  }

  /** After a refused commit, until the next write ends: the cache is what it was with the edits made
      since, so that what was staged still is; any write under way by then captured such a cache;
      and otherwise a write is forced, and starts as soon as the result has been delivered. */
  lemma RefusedCommit(run: seq<System>, steps: seq<Step>, k: nat, m: nat)
    requires IsRun(run, steps) && k < m < |run| && steps[k].Finished? && run[k].writing.Some?
    requires run[k].writing.value.Commits(steps[k].success) && run[k].writing.value.revision != run[k].cache.revision
    requires NoneEnds(steps[k + 1..m])
    ensures run[m].cache == Replay(run[k].cache, steps[k + 1..m])
    ensures OnlyStage(steps[k + 1..m]) ==> StillStaged(run[k].cache, run[m].cache)
    ensures run[m].writing.Some? ==> exists j | k < j < m :: StartedAt(run, steps, j, run[m].writing)
    ensures run[m].writing.None? ==> run[m].force || true in run[m].results
    ensures run[m].writing.None? && run[m].results == [] ==>
              run[m].force && Start(run[m]).writing == Some(Writing(Capture(run[m].cache), run[m].cache.revision))
  {
    hide Capture;
    hide StillStaged;
    hide Replay;
    hide StartedAt;
    assert StepAt(run, steps, k);
    assert run[k + 1].cache == run[k].cache && run[k + 1].writing.None?;
    assert run[k + 1].results[|run[k].results|] == true;
    Between(run, steps, k + 1, m);
    if OnlyStage(steps[k + 1..m]) {
      ReplayStill(run[k].cache, steps[k + 1..m]);
    }
  }

  /** An edit that is staged while a write is under way is still staged when that write has ended
      exactly when the write goes on to commit: a failed write, and any write of artwork, drops it,
      and does not report that anything is pending. */
  lemma EditSurvivesIff(run: seq<System>, steps: seq<Step>, i: nat, k: nat)
    requires IsRun(run, steps) && Initial(run[0]) && i < k < |steps| && steps[i].Edited? && steps[k].Finished?
    requires run[i].writing.Some? && NoneEnds(steps[i + 1..k]) && OnlyStage(steps[i + 1..k])
    requires run[i + 1].cache.revision > run[i].cache.revision && run[i + 1].cache.HasPending()
    ensures run[k].writing == run[i].writing
    ensures StillStaged(run[i + 1].cache, run[k + 1].cache) <==> run[i].writing.value.Commits(steps[k].success)
    ensures !run[i].writing.value.Commits(steps[k].success) ==>
              !run[k + 1].cache.HasPending() && run[k + 1].results == run[k].results + [false]
  {
    hide Capture;
    hide StillStaged;
    hide Replay;
    hide StartedAt;
    hide Apply;
    assert StepAt(run, steps, i);
    assert StepAt(run, steps, k);
    RunTraced(run, steps, i);
    Between(run, steps, i + 1, k);
    ReplayStill(run[i + 1].cache, steps[i + 1..k]);
    ApplyCommit(run[k].cache, run[k].writing.value.revision);
    if !run[i].writing.value.Commits(steps[k].success) {
      NothingStill(run[i + 1].cache, run[k + 1].cache);
    }
  }
}
