/** Why the writer stays in the shard that the planner chose: every byte it writes for a format is
    a byte the planner counted. */
module ShardAccounting {
  import opened Outcomes
  import opened ArtworkTypes
  import opened IthmbPlanner
  import opened IthmbPaths
  import opened IthmbShards
  import opened IthmbWriter
  import opened ArtworkRewrite
  import opened ArtworkPayloads
  import opened ArtworkEntries
  import opened ArtworkUpdate

  type Weight = AssetRef -> nat

  ghost function Weigh(s: set<AssetRef>, w: Weight): nat {
    if s == {} then 0
    else
      var a :| a in s;
      w(a) + Weigh(s - {a}, w)
  }

  lemma {:induction false} WeighWithout(s: set<AssetRef>, w: Weight, a: AssetRef)
    requires a in s
    ensures Weigh(s, w) == w(a) + Weigh(s - {a}, w)
    decreases s
  {
    var b :| b in s && Weigh(s, w) == w(b) + Weigh(s - {b}, w);
    if a != b {
      WeighWithout(s - {b}, w, a);
      WeighWithout(s - {a}, w, b);
      assert s - {b} - {a} == s - {a} - {b};
    }
  }

  lemma {:induction false} WeighAtMost(s: set<AssetRef>, t: set<AssetRef>, w: Weight, v: Weight)
    requires forall a | a in s && w(a) > 0 :: a in t
    requires forall a | a in t :: w(a) <= v(a)
    ensures Weigh(s, w) <= Weigh(t, v)
    decreases s
  {
    if s != {} {
      var a :| a in s;
      WeighWithout(s, w, a);
      if a in t {
        WeighWithout(t, v, a);
        WeighAtMost(s - {a}, t - {a}, w, v);
      } else {
        WeighAtMost(s - {a}, t, w, v);
      }
    }
  }

  lemma {:induction false} WeighSplit(s: set<AssetRef>, w: Weight, u: Weight, v: Weight)
    requires forall a | a in s :: w(a) == u(a) + v(a)
    ensures Weigh(s, w) == Weigh(s, u) + Weigh(s, v)
  {
    if s != {} {
      var a :| a in s;
      WeighWithout(s, w, a);
      WeighWithout(s, u, a);
      WeighWithout(s, v, a);
      WeighSplit(s - {a}, w, u, v);
    }
  }

  /** The assets with a frame of format `f` in the log. */
  ghost function AssetsIn(log: Log, f: nat): set<AssetRef> {
    if log == [] then {}
    else AssetsIn(log[..|log| - 1], f) + (if log[|log| - 1].f == f then {log[|log| - 1].asset} else {})
  }

  lemma {:induction false} AssetsInLog(log: Log, f: nat, a: AssetRef)
    requires a in AssetsIn(log, f)
    ensures exists k :: 0 <= k < |log| && log[k].f == f && log[k].asset == a
  {
    var n := |log| - 1;
    if !(log[n].f == f && log[n].asset == a) {
      AssetsInLog(log[..n], f, a);
    }
  }

  /** Bytes written for a format, asset by asset. */
  lemma {:induction false} TotalByAsset(log: Log, f: nat, w: Weight)
    requires OncePerAsset(log)
    requires forall k | 0 <= k < |log| && log[k].f == f :: w(log[k].asset) == |log[k].data|
    ensures Total(log, f) == Weigh(AssetsIn(log, f), w)
  {
    if log != [] {
      var n := |log| - 1;
      TotalByAsset(log[..n], f, w);
      if log[n].f == f {
        var a := log[n].asset;
        if a in AssetsIn(log[..n], f) {
          AssetsInLog(log[..n], f, a);
        }
        WeighWithout(AssetsIn(log, f), w, a);
        assert AssetsIn(log, f) - {a} == AssetsIn(log[..n], f);
      } else {
        assert AssetsIn(log, f) == AssetsIn(log[..n], f);
      }
    }
  }

  ghost function SetOf(order: seq<AssetRef>): set<AssetRef> {
    set a | a in order
  }

  function NewSize(payload: Payload, f: nat): Option<int> {
    if f in payload && payload[f].Encoded? then Some(payload[f].size) else None
  }

  lemma NewSizesStep(payloads: seq<Payload>, f: nat)
    requires payloads != []
    ensures var n, size := |payloads| - 1, NewSize(payloads[|payloads| - 1], f);
            Sum(NewSizes(payloads, f)) == Sum(NewSizes(payloads[..n], f)) + (if size.Some? then size.value else 0)
  {
    var n := |payloads| - 1;
    if NewSize(payloads[n], f).Some? {
      assert NewSizes(payloads, f)[..|NewSizes(payloads, f)| - 1] == NewSizes(payloads[..n], f);
    } else {
      assert NewSizes(payloads, f) == NewSizes(payloads[..n], f);
    }
  }

  /** New bytes planned for a format, asset by asset. */
  lemma {:induction false} NewByAsset(order: seq<AssetRef>, payloads: seq<Payload>, f: nat, w: Weight)
    requires |order| == |payloads| && forall i, j | 0 <= i < j < |order| :: order[i] != order[j]
    requires forall i | 0 <= i < |order| :: w(order[i]) <= (var size := NewSize(payloads[i], f); if size.Some? then size.value else 0)
    ensures Weigh(SetOf(order), w) <= Sum(NewSizes(payloads, f))
  {
    if order != [] {
      hide NewSizes;
      hide NewSize;
      hide Sum;
      var n := |order| - 1;
      var a := order[n];
      NewByAsset(order[..n], payloads[..n], f, w);
      NewSizesStep(payloads, f);
      assert order == order[..n] + [a];
      assert SetOf(order) - {a} == SetOf(order[..n]);
      WeighWithout(SetOf(order), w, a);
    }
  }

  ghost function PreservedAssets(decisions: seq<Decision>): set<AssetRef> {
    if decisions == [] then {}
    else
      var n := |decisions| - 1;
      PreservedAssets(decisions[..n]) + (if FirstForAsset(decisions, n) then {decisions[n].asset.value} else {})
  }

  lemma {:induction false} PreservedAssetsFrom(decisions: seq<Decision>, a: AssetRef)
    requires a in PreservedAssets(decisions)
    ensures exists j :: 0 <= j < |decisions| && decisions[j].Preserves() && decisions[j].asset == Some(a)
  {
    var n := |decisions| - 1;
    if !(FirstForAsset(decisions, n) && decisions[n].asset == Some(a)) {
      PreservedAssetsFrom(decisions[..n], a);
      var j :| 0 <= j < n && decisions[..n][j].Preserves() && decisions[..n][j].asset == Some(a);
      assert decisions[j] == decisions[..n][j];
    }
  }

  lemma {:induction false} FirstIsPreserved(decisions: seq<Decision>, i: nat)
    requires i < |decisions| && FirstForAsset(decisions, i)
    ensures decisions[i].asset.value in PreservedAssets(decisions)
  {
    var n := |decisions| - 1;
    if i < n {
      assert forall j | 0 <= j < i :: decisions[..n][j] == decisions[j];
      FirstIsPreserved(decisions[..n], i);
    }
  }

  /** Bytes the planner counted for one shard, asset by asset. */
  lemma {:induction false} PreservedByAsset(decisions: seq<Decision>, f: nat, filename: string, w: Weight)
    requires forall i | 0 <= i < |decisions| && FirstForAsset(decisions, i) ::
               w(decisions[i].asset.value) <= FrameBytes(decisions[i], f, filename)
    ensures Weigh(PreservedAssets(decisions), w) <= PreservedBytes(decisions, f, filename)
  {
    hide FrameBytes;
    if decisions != [] {
      var n := |decisions| - 1;
      var front := decisions[..n];
      forall i | 0 <= i < n ensures FirstForAsset(front, i) <==> FirstForAsset(decisions, i) {
        assert forall j | 0 <= j < i :: front[j] == decisions[j];
      }
      PreservedByAsset(front, f, filename, w);
      if FirstForAsset(decisions, n) {
        var a := decisions[n].asset.value;
        if a in PreservedAssets(front) { PreservedAssetsFrom(front, a); }
        assert PreservedAssets(decisions) - {a} == PreservedAssets(front);
        WeighWithout(PreservedAssets(decisions), w, a);
      } else {
        assert PreservedAssets(decisions) == PreservedAssets(front);
      }
    }
  }

  /** Assets made from new images and assets that are kept are told apart, as `pc` and `preserve`
      sources are. */
  ghost predicate Separate(q: Request) {
    forall a :: FirstPreserved(q.decisions, a).Some? ==> ArtOf(q.decisions, a).None?
  }

  /** Kept frames of format `f` were carried over, not re-encoded from another frame. */
  ghost predicate NothingSalvaged(q: Request, u: Update, f: nat) {
    forall a | a in u.gallery && FirstPreserved(q.decisions, a).Some? && f in u.gallery[a].formats && u.gallery[a].formats[f].Encoded? ::
      var e := FirstPreserved(q.decisions, a).value;
      f in KnownRefs(q.env, e) && CarriedFrame(q.env, e.formats[f], f, u.plan.rewrite) == Some(u.gallery[a].formats[f])
  }

  /** Bytes that the gallery has to write for one asset's frame. */
  ghost function Bytes(g: Gallery, f: nat, a: AssetRef): nat {
    if a in g && f in g[a].formats && g[a].formats[f].Encoded? then |g[a].formats[f].data| else 0
  }

  ghost function AllBytes(g: Gallery, f: nat): Weight {
    a => Bytes(g, f, a)
  }

  ghost function KeptBytes(q: Request, g: Gallery, f: nat): Weight {
    a => if FirstPreserved(q.decisions, a).Some? then Bytes(g, f, a) else 0
  }

  ghost function NewBytes(q: Request, g: Gallery, f: nat): Weight {
    a => if FirstPreserved(q.decisions, a).None? then Bytes(g, f, a) else 0
  }

  /** A kept frame that is written is one the planner counted. */
  lemma KeptBytesPlanned(q: Request, u: Update, f: nat, i: nat)
    requires Separate(q) && NothingSalvaged(q, u, f)
    requires f in u.plan.rewrite && FileIndex(u.plan.rewrite[f], f).Some?
    requires i < |q.decisions| && FirstForAsset(q.decisions, i)
    ensures KeptBytes(q, u.gallery, f)(q.decisions[i].asset.value) <= FrameBytes(q.decisions[i], f, u.plan.rewrite[f])
  {
    hide FileIndex;
    var a := q.decisions[i].asset.value;
    if KeptBytes(q, u.gallery, f)(a) > 0 {
      var j := PreservedFrom(q.decisions, a);
      assert i == j;
      var e := FirstPreserved(q.decisions, a).value;
      assert CarriedFrame(q.env, e.formats[f], f, u.plan.rewrite) == Some(u.gallery[a].formats[f]);
    }
  }

  lemma KeptIsPreserved(q: Request, g: Gallery, f: nat, a: AssetRef)
    requires KeptBytes(q, g, f)(a) > 0
    ensures a in PreservedAssets(q.decisions)
  {
    hide FirstPreserved;
    var j := PreservedFrom(q.decisions, a);
    FirstIsPreserved(q.decisions, j);
  }

  /** A new frame that is written is one the planner counted. */
  lemma NewBytesPlanned(q: Request, u: Update, f: nat, a: AssetRef)
    requires Sane(q) && IsListing(q, u.order, u.payloads) && GalleryAt(q, u.plan, a, ArtworkOf(u.gallery, a))
    requires FirstPreserved(q.decisions, a).None? && Bytes(u.gallery, f, a) > 0
    ensures a in u.order
    ensures forall i | 0 <= i < |u.order| && u.order[i] == a ::
              f in u.payloads[i] && u.payloads[i][f].Encoded? && u.payloads[i][f].size == Bytes(u.gallery, f, a)
  {
    hide PreservedAs;
    hide NewArtwork;
    hide Sane;
    GalleryFits(q, u.plan, a, ArtworkOf(u.gallery, a));
    assert FrameFit(q.env, f, u.gallery[a].formats[f]);
  }

  lemma NewSizePositive(q: Request, u: Update, f: nat, i: nat)
    requires Sane(q) && IsListing(q, u.order, u.payloads) && i < |u.order| && f in u.payloads[i]
    ensures u.payloads[i][f].size > 0
  {
    hide TargetsOf;
    hide EntryFit;
    hide ArtOf;
    hide Surroundings.EncodeFor;
    var a := u.order[i];
    var image := q.env.load(ArtOf(q.decisions, a).value).value;
    assert q.env.EncodeFor(image, f) == Some(u.payloads[i][f]);
  }

  lemma LogBytes(q: Request, disk: Disk, u: Update, f: nat)
    requires u.Written(q, disk)
    ensures Total(u.rewrite.shards.log, f) == Weigh(AssetsIn(u.rewrite.shards.log, f), AllBytes(u.gallery, f))
  {
    hide Prepared;
    hide Live;
    hide SameFinals;
    hide Shards.Contiguous;
    hide Shards.Budgeted;
    var log := u.rewrite.shards.log;
    forall k | 0 <= k < |log| && log[k].f == f ensures AllBytes(u.gallery, f)(log[k].asset) == |log[k].data| {
      var e :| e in u.rewrite.source.entries && e.imgId in u.rewrite.assetOf && RecordOf(log[k], u.rewrite.assetOf[e.imgId], e.formats);
      var i :| 0 <= i < |u.rewrite.source.entries| && u.rewrite.source.entries[i] == e;
    }
    TotalByAsset(log, f, AllBytes(u.gallery, f));
  }

  /** Every byte written for a planned format was counted by the planner: as a frame kept in the
      planned shard, or as a new one. */
  lemma WrittenWithinPlan(q: Request, disk: Disk, u: Update, f: nat)
    requires u.Answers(q, disk) && Sane(q) && Separate(q) && NothingSalvaged(q, u, f) && f in u.plan.start
    ensures Total(u.rewrite.shards.log, f)
            <= PreservedBytes(q.decisions, f, u.plan.rewrite[f]) + Sum(NewSizes(u.payloads, f))
  {
    hide Update.Written;
    hide GalleryAt;
    hide Sane;
    hide Separate;
    hide NothingSalvaged;
    hide FileIndex;
    hide NameAt;
    hide FrameBytes;
    hide NewArtwork;
    hide Total;
    hide PreservedBytes;
    hide NewSizes;
    hide FirstPreserved;
    var all, kept, new_ := AllBytes(u.gallery, f), KeptBytes(q, u.gallery, f), NewBytes(q, u.gallery, f);
    var s := AssetsIn(u.rewrite.shards.log, f);
    NameAtIndex(q.existing, f, u.plan.start[f] + 1);
    LogBytes(q, disk, u, f);
    WeighSplit(s, all, kept, new_);
    forall i | 0 <= i < |q.decisions| && FirstForAsset(q.decisions, i)
      ensures kept(q.decisions[i].asset.value) <= FrameBytes(q.decisions[i], f, u.plan.rewrite[f])
    {
      KeptBytesPlanned(q, u, f, i);
    }
    PreservedByAsset(q.decisions, f, u.plan.rewrite[f], kept);
    forall a | a in s && kept(a) > 0 ensures a in PreservedAssets(q.decisions) {
      KeptIsPreserved(q, u.gallery, f, a);
    }
    WeighAtMost(s, PreservedAssets(q.decisions), kept, kept);
    forall a | new_(a) > 0
      ensures a in u.order
      ensures forall i | 0 <= i < |u.order| && u.order[i] == a ::
                f in u.payloads[i] && u.payloads[i][f].Encoded? && u.payloads[i][f].size == new_(a)
    {
      NewBytesPlanned(q, u, f, a);
    }
    forall i | 0 <= i < |u.order|
      ensures new_(u.order[i]) <= (var size := NewSize(u.payloads[i], f); if size.Some? then size.value else 0)
    {
      if f in u.payloads[i] { NewSizePositive(q, u, f, i); }
    }
    NewByAsset(u.order, u.payloads, f, new_);
    WeighAtMost(s, SetOf(u.order), new_, new_);
  }

  /** A frame kept in place is never in the shard being rewritten. */
  lemma KeptElsewhere(q: Request, disk: Disk, u: Update, f: nat, e: ArtworkEntry)
    requires u.Answers(q, disk) && f in q.env.known && f in u.plan.rewrite
    requires e in u.rewrite.source.entries && f in e.formats && e.formats[f].Passthrough?
    ensures e.formats[f].filename != u.plan.rewrite[f]
  {
    hide Prepared;
    hide IsPlan;
    hide IsListing;
    hide Live;
    hide PreservedAs;
    hide TargetsOf;
    hide PassthroughFor;
    hide FirstPreserved;
    hide ArtOf;
    var i :| 0 <= i < |u.rewrite.source.entries| && u.rewrite.source.entries[i] == e;
    var a := u.LiveTracks(q)[i].asset;
    assert GalleryAt(q, u.plan, a, ArtworkOf(u.gallery, a));
    if FirstPreserved(q.decisions, a).Some? && IsPreserved(q.env, q.decisions, u.plan.rewrite, q.required, a, ArtworkOf(u.gallery, a)) {
      UnknownOnly(q.env, q.decisions, a, f);
      KeptInPlace(q.env, FirstPreserved(q.decisions, a).value, PassthroughFor(q.env, q.decisions, a), u.plan.rewrite,
                  TargetsOf(q.env, q.decisions, q.required, a), q.required, e.formats, f);
    }
  }

  lemma {:induction false} UnknownOnly(env: Surroundings, decisions: seq<Decision>, asset: AssetRef, f: nat)
    requires f in env.known
    ensures f !in PassthroughFor(env, decisions, asset)
  {
    if decisions != [] {
      UnknownOnly(env, decisions[..|decisions| - 1], asset, f);
    }
  }

  lemma KeptInPlace(env: Surroundings, e: ExistingEntry, passthrough: Payload, rewrite: map<nat, string>, targets: set<nat>,
                    required: set<nat>, r: Payload, f: nat)
    requires PreservedAs(env, e, passthrough, rewrite, targets, required, Some(r))
    requires f !in passthrough && f in r && r[f].Passthrough? && f in rewrite
    ensures r[f].filename != rewrite[f]
  {
    hide DecodedFrom;
    hide Surroundings.EncodeFor;
    hide Surroundings.Usable;
    hide Surroundings.WholeFrame;
  }

  lemma {:induction false} ProtectedFrom(entries: seq<ArtworkEntry>, f: nat, name: string)
    requires name in ProtectedIn(entries, f)
    ensures exists e :: e in entries && f in e.formats && e.formats[f].Passthrough? && e.formats[f].filename == name
  {
    var n := |entries| - 1;
    if name in KeptOf(entries[n], f) {
      assert entries[n] in entries;
    } else {
      ProtectedFrom(entries[..n], f, name);
      var e :| e in entries[..n] && f in e.formats && e.formats[f].Passthrough? && e.formats[f].filename == name;
      assert e in entries;
    }
  }

  lemma ShardParts(q: Request, disk: Disk, u: Update, f: nat)
    requires u.Answers(q, disk) && f in u.plan.start
    ensures var s := u.rewrite.shards;
            s.Stored() && s.Contiguous() && s.Budgeted() && s.StartOf(f) == u.plan.start[f] && f in u.plan.rewrite
            && s.ProtectedOf(f) == ProtectedIn(u.rewrite.source.entries, f)
  {
    hide GalleryAt;
    hide IsListing;
    hide Assembled;
    hide ProtectedIn;
    hide Shards.ProtectedOf;
    hide Shards.Stored;
    hide Shards.Contiguous;
    hide Shards.Budgeted;
  }

  /** When the kept and new frames of a known format fit the planned shard together, the planned
      shard is under its canonical name and nothing had to be re-encoded, then the planned shard
      is the only one that is written. */
  lemma PlannedShardOnly(q: Request, disk: Disk, u: Update, f: nat, index: nat)
    requires u.Answers(q, disk) && Sane(q) && Separate(q) && NothingSalvaged(q, u, f) && f in u.plan.start && f in q.env.known
    requires u.plan.rewrite[f] == IthmbFilename(f, u.plan.start[f] + 1)
    requires PreservedBytes(q.decisions, f, u.plan.rewrite[f]) + Sum(NewSizes(u.payloads, f)) <= ITHMB_MAX_SIZE_BYTES
    requires exists i :: u.rewrite.shards.Wrote(f, i)
    ensures u.rewrite.shards.Wrote(f, index) <==> index == u.plan.start[f] + 1
  {
    hide GalleryAt;
    hide Sane;
    hide Separate;
    hide NothingSalvaged;
    hide NewSizes;
    hide PreservedBytes;
    hide IthmbFilename;
    hide Total;
    hide Update.Answers;
    hide ProtectedIn;
    hide Shards.ProtectedOf;
    hide Shards.Stored;
    hide Shards.Contiguous;
    hide Shards.Budgeted;
    ShardParts(q, disk, u, f);
    var s := u.rewrite.shards;
    var name := u.plan.rewrite[f];
    WrittenWithinPlan(q, disk, u, f);
    if name in s.ProtectedOf(f) {
      ProtectedFrom(u.rewrite.source.entries, f, name);
      var e :| e in u.rewrite.source.entries && f in e.formats && e.formats[f].Passthrough? && e.formats[f].filename == name;
      KeptElsewhere(q, disk, u, f, e);
    }
    OnlyFirstShard(s, f, index);
  }
}
