/** The worker and the controller that run the protocol. */
module QuickWrite {
  import opened Outcomes
  import opened CacheModel
  import opened LibraryCache
  import opened QuickWriteProtocol

  class QuickWriteWorker {
    const cache: ItunesDbCache
    const image: Image
    const revision: nat
    var running: bool
    var newer: bool

    /** Captures the cache. */
    constructor (cache: ItunesDbCache)
      ensures this.cache == cache && running && !newer
      ensures image == Capture(cache.Value()) && revision == cache.revision
    {
      this.cache := cache;
      var captured, at := cache.CaptureForWrite();
      image, revision, running, newer := captured, at, true, false;
    }

    /** `run`, from the point where the engine has reported its result. */
    method Complete(success: bool, parsed: Library)
      requires running
      modifies this, cache
      ensures !running
      ensures Writing(image, revision).Commits(success) ==>
                cache.Value() == Apply(old(cache.Value()), Commit(revision)) && newer == (revision != old(cache.revision))
      ensures !Writing(image, revision).Commits(success) ==>
                cache.Value() == Reloaded(old(cache.Value()), parsed) && newer == old(newer)
    {
      if success && image.artwork == map[] {
        var committed := cache.CommitQuickWriteState(revision);
        newer := !committed;
      } else {
        cache.ReloadAfterWrite(parsed);
      }
      running := false;
    }
  }

  class QuickWriteController {
    const cache: ItunesDbCache
    var worker: QuickWriteWorker?
    var force: bool
    ghost var results: seq<bool>
    ghost var device: Image
    ghost var written: nat

    ghost predicate Valid()
      reads this, worker
    {
      worker != null ==> worker.cache == cache
    }

    ghost function View(): System
      reads this, worker, cache
    {
      System(cache.Value(), if worker != null && worker.running then Some(Writing(worker.image, worker.revision)) else None,
             results, force, device, written)
    }

    constructor (cache: ItunesDbCache)
      ensures this.cache == cache && Valid() && worker == null && !force && results == [] && written == cache.revision
      ensures device == Capture(cache.Value())
    {
      this.cache, worker, force, results, written := cache, null, false, [], cache.revision;
      device := Capture(cache.Value());
    }

    /** `start_quick_write` */
    method StartQuickWrite()
      requires Valid()
      modifies this
      ensures Valid() && View() == Start(old(View()))
    {
      hide Capture;
      if worker != null && worker.running {
        return;
      }
      if cache.edits == map[] && cache.artwork == map[] && cache.playlists == [] && !force {
        return;
      }
      var started := new QuickWriteWorker(cache);
      force := false;
      worker := started;
    }

    /** The worker ends; its result is queued for the controller. */
    method WorkerEnds(success: bool, parsed: Library)
      requires Valid() && worker != null && worker.running && !worker.newer
      modifies this, worker, cache
      ensures Valid() && View() == Finish(old(View()), success, parsed)
    {
      hide Capture;
      hide Apply;
      hide Reloaded;
      ghost var before := View();
      worker.Complete(success, parsed);
      device := Finish(before, success, parsed).device;
      written := Finish(before, success, parsed).written;
      results := results + [worker.newer];
    }

    /** `_on_quick_write_done` for a successful result. */
    method OnQuickWriteDone(newer: bool)
      requires Valid() && results != [] && results[0] == newer && !(worker != null && worker.running)
      modifies this
      ensures Valid() && View() == Deliver(old(View()))
    {
      worker := null;
      results := results[1..];
      if newer {
        force := true;
      }
    }
  }
}
