/** Staged images: no image leaves the staging area unwritten, except by a discard or a reload. */
module QuickWriteImages {
  import opened PlaylistRows
  import opened PlaylistOverlay
  import opened CacheModel
  import opened CaptureContents
  import opened QuickWriteProtocol

  /** A write that starts hands over every image that is staged then, and its revision names what it
      captured. */
  lemma StartCarries(run: seq<System>, steps: seq<Step>, k: nat)
    requires QuickWriteProtocol.IsRun(run, steps) && k < |steps| && steps[k].Started?
    requires run[k].writing.None? && (run[k].cache.HasPending() || run[k].force)
    ensures run[k + 1].writing.Some?
    ensures run[k + 1].writing.value.image.artwork == run[k].cache.artwork
    ensures run[k + 1].writing.value.revision == run[k].cache.revision && run[k + 1].cache == run[k].cache
  {
    hide LivePlaylists;
    assert StepAt(run, steps, k);
    CapturedRest(run[k].cache, 0, 0);
  }

  lemma EditKeepsImages(c: Cache, e: Edit)
    requires !e.Commit? && !e.Drop?
    ensures c.artwork.Keys <= Apply(c, e).artwork.Keys
  {
    hide EditTracks;
    hide EditArtworks;
    hide StageAll;
    hide SaveTargets;
    match e {
      case Flags(targets, changes) => EditsKeepRest(c, targets, changes);
      case Art(targets, path) => ArtStages(c, targets, path); ArtStill(c, targets, path);
      case _ =>
    }
  }

  /** A step that gives staged images up: a discard, or the end of a write that reloads the library. */
  predicate GivesUp(s: System, step: Step) {
    match step
    case Edited(edit) => edit.Drop?
    case Finished(success, _) => s.writing.Some? && !s.writing.value.Commits(success)
    case _ => false
  }

  lemma StepKeepsImages(s: System, step: Step)
    requires Enabled(s, step) && Traced(s) && !GivesUp(s, step)
    ensures s.cache.artwork.Keys <= Next(s, step).cache.artwork.Keys
  {
    hide LivePlaylists;
    hide Apply;
    match step {
      case Edited(edit) => EditKeepsImages(s.cache, edit);
      case Finished(success, parsed) =>
        ApplyCommit(s.cache, s.writing.value.revision);
        CapturedRest(s.cache, 0, 0);
      case _ =>
    }
  }

  /** In every run, an image stays staged until a discard, or until a write ends that reloads: an
      accepted commit never takes one away. */
  lemma {:induction false} ImageStays(run: seq<System>, steps: seq<Step>, i: nat, k: nat, id: int)
    requires QuickWriteProtocol.IsRun(run, steps) && Initial(run[0]) && i <= k < |run| && id in run[i].cache.artwork
    requires forall j | i <= j < k :: !GivesUp(run[j], steps[j])
    ensures id in run[k].cache.artwork
    decreases k
  {
    hide Next;
    hide Enabled;
    hide Traced;
    hide GivesUp;
    if i < k {
      ImageStays(run, steps, i, k - 1, id);
      RunTraced(run, steps, k - 1);
      assert StepAt(run, steps, k - 1);
      StepKeepsImages(run[k - 1], steps[k - 1]);
    }
  }

  /** So when a reload takes an image away, the write that ends was handed that image, unless the image
      was staged while the write was already under way. */
  lemma ImageWasHandedOver(run: seq<System>, steps: seq<Step>, i: nat, s: nat, k: nat, id: int)
    requires QuickWriteProtocol.IsRun(run, steps) && Initial(run[0]) && i <= s < k < |steps| && id in run[i].cache.artwork
    requires forall j | i <= j < k :: !GivesUp(run[j], steps[j])
    requires steps[s].Started? && run[s].writing.None? && NoneEnds(steps[s + 1..k])
    ensures run[k].writing.Some? && id in run[k].writing.value.image.artwork
    ensures run[k].writing.value.image.artwork == run[s].cache.artwork
  {
    hide Next;
    hide Enabled;
    hide GivesUp;
    hide Capture;
    hide Replay;
    hide StartedAt;
    ImageStays(run, steps, i, s, id);
    StartCarries(run, steps, s);
    Between(run, steps, s + 1, k);
  }
}
