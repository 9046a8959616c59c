/** What has been written to numbered shards, as a log of frames. */
module IthmbShards {
  import opened Bytes
  import opened IthmbPlanner
  import opened IthmbPaths

  /** A file in the artwork directory, or a temporary that will replace one. */
  datatype FileKey = Final(name: string) | Temp(serial: nat)

  type Disk = map<FileKey, Bytes>

  /** One frame in one shard. */
  datatype Record = Record(asset: AssetRef, f: nat, index: nat, offset: nat, data: Bytes)

  type Log = seq<Record>

  /** The bytes of shard `index` of format `f`: its frames back to back, in writing order. */
  ghost function Content(log: Log, f: nat, index: nat): Bytes {
    if log == [] then []
    else
      var r := log[|log| - 1];
      Content(log[..|log| - 1], f, index) + (if r.f == f && r.index == index then r.data else [])
  }

  /** Bytes written for format `f`, over all its shards. */
  ghost function Total(log: Log, f: nat): nat {
    if log == [] then 0
    else
      var r := log[|log| - 1];
      Total(log[..|log| - 1], f) + (if r.f == f then |r.data| else 0)
  }

  lemma Appended(log: Log, r: Record, f: nat, index: nat)
    ensures Content(log + [r], f, index) == Content(log, f, index) + (if r.f == f && r.index == index then r.data else [])
    ensures Total(log + [r], f) == Total(log, f) + (if r.f == f then |r.data| else 0)
  {
    assert (log + [r])[..|log|] == log;
  }

  lemma {:induction false} ContentGrows(log: Log, k: nat, f: nat, index: nat)
    requires k <= |log|
    ensures Content(log[..k], f, index) <= Content(log, f, index)
    decreases |log|
  {
    if k < |log| {
      var front := log[..|log| - 1];
      assert front[..k] == log[..k];
      ContentGrows(front, k, f, index);
    } else {
      assert log[..k] == log;
    }
  }

  /** Each frame starts where its shard ended when it was written. */
  ghost predicate Aligned(log: Log) {
    forall k | 0 <= k < |log| :: log[k].offset == |Content(log[..k], log[k].f, log[k].index)|
  }

  lemma ContentNext(log: Log, k: nat)
    requires k < |log|
    ensures var r := log[k];
            Content(log[..k + 1], r.f, r.index) == Content(log[..k], r.f, r.index) + r.data
  {
    assert log[..k + 1][..k] == log[..k];
  }

  lemma PrefixPart(before: Bytes, data: Bytes, all: Bytes)
    requires before + data <= all
    ensures At(all, |before|, data)
  {
    assert all[|before|..|before + data|] == (before + data)[|before|..];
  }

  /** Reading a frame's bytes back from its shard gives the frame. */
  lemma FrameInShard(log: Log, k: nat)
    requires Aligned(log) && k < |log|
    ensures var r := log[k];
            At(Content(log, r.f, r.index), r.offset, r.data)
  {
    hide Content;
    hide At;
    var r := log[k];
    ContentGrows(log, k + 1, r.f, r.index);
    ContentNext(log, k);
    PrefixPart(Content(log[..k], r.f, r.index), r.data, Content(log, r.f, r.index));
  }

  /** No two frames of a log share an asset and a format. */
  ghost predicate OncePerAsset(log: Log) {
    forall j, k | 0 <= j < k < |log| :: log[j].asset != log[k].asset || log[j].f != log[k].f
  }

  /** How far the writer has got with one format: the shard it is filling, and its length. */
  datatype Cursor = Cursor(index: nat, offset: nat)

  ghost predicate HasFrame(log: Log, f: nat, index: nat) {
    exists k :: 0 <= k < |log| && log[k].f == f && log[k].index == index
  }

  lemma HasFrameMore(log: Log, r: Record, f: nat, index: nat)
    requires HasFrame(log, f, index) || (r.f == f && r.index == index)
    ensures HasFrame(log + [r], f, index)
  {
    if HasFrame(log, f, index) {
      var k :| 0 <= k < |log| && log[k].f == f && log[k].index == index;
      assert (log + [r])[k] == log[k];
    } else {
      assert (log + [r])[|log|] == r;
    }
  }

  /** Frame `k` is the first of its shard. */
  ghost predicate FirstIn(log: Log, k: nat)
    requires k < |log|
  {
    forall j | 0 <= j < k :: log[j].f != log[k].f || log[j].index != log[k].index
  }

  /** Shard `h` is the last one of the format with a frame before shard `i`. */
  ghost predicate JustBefore(log: Log, f: nat, h: nat, i: nat) {
    h < i && HasFrame(log, f, h) && forall g | h < g < i :: !HasFrame(log, f, g)
  }

  /** The shards of a format are filled one after the other, and a new one is only begun by a frame that
      the one before has no room for. */
  ghost predicate Greedy(log: Log) {
    && (forall j, k | 0 <= j < k < |log| && log[j].f == log[k].f :: log[j].index <= log[k].index)
    && (forall k, h | 0 <= k < |log| && FirstIn(log, k) && JustBefore(log, log[k].f, h, log[k].index) ::
          |Content(log, log[k].f, h)| + |log[k].data| > ITHMB_MAX_SIZE_BYTES)
  }

  lemma HasFrameIff(log: Log, r: Record, f: nat, index: nat)
    ensures HasFrame(log + [r], f, index) <==> HasFrame(log, f, index) || (r.f == f && r.index == index)
  {
    var all := log + [r];
    assert all[|log|] == r && forall k | 0 <= k < |log| :: all[k] == log[k];
    if k :| 0 <= k < |log| && log[k].f == f && log[k].index == index { assert all[k] == log[k]; }
  }

  lemma OneBefore(log: Log, r: Record, f: nat, h: nat, i: nat)
    requires JustBefore(log + [r], f, h, i) && (r.f == f ==> i <= r.index)
    ensures JustBefore(log, f, h, i)
  {
    hide HasFrame;
    HasFrameIff(log, r, f, h);
    forall g | h < g < i ensures !HasFrame(log, f, g) { HasFrameIff(log, r, f, g); }
  }

  lemma GreedyAppend(log: Log, r: Record)
    requires Greedy(log)
    requires forall k | 0 <= k < |log| && log[k].f == r.f :: log[k].index <= r.index
    requires HasFrame(log, r.f, r.index)
             || forall h | JustBefore(log, r.f, h, r.index) :: |Content(log, r.f, h)| + |r.data| > ITHMB_MAX_SIZE_BYTES
    ensures Greedy(log + [r])
  {
    hide Content;
    hide JustBefore;
    var all, n := log + [r], |log|;
    assert all[n] == r && forall k | 0 <= k < n :: all[k] == log[k];
    forall k, h | 0 <= k < |all| && FirstIn(all, k) && JustBefore(all, all[k].f, h, all[k].index)
      ensures |Content(all, all[k].f, h)| + |all[k].data| > ITHMB_MAX_SIZE_BYTES
    {
      OneBefore(log, r, all[k].f, h, all[k].index);
      Appended(log, r, all[k].f, h);
      BeforeLess(log, all[k].f, h, all[k].index);
      if k < n {
        assert FirstIn(log, k);
      } else if HasFrame(log, r.f, r.index) {
        assert false;
      }
    }
  }

  lemma BeforeLess(log: Log, f: nat, h: nat, i: nat)
    requires JustBefore(log, f, h, i)
    ensures h < i
  {
  }

  /** The shards written so far. */
  datatype Shards = Shards(
    start: map<nat, nat>,
    protected: map<nat, set<string>>,
    disk: Disk,
    temps: map<(nat, nat), FileKey>,
    cursors: map<nat, Cursor>,
    open: set<nat>,
    log: Log
  ) {
    function StartOf(f: nat): nat {
      if f in start then start[f] else 0
    }

    function ProtectedOf(f: nat): set<string> {
      if f in protected then protected[f] else {}
    }

    ghost predicate Wrote(f: nat, index: nat) {
      (f, index) in temps
    }

    /** Each shard is one temporary that holds exactly its frames, under an unprotected name. */
    ghost predicate HoldsFrames() {
      forall f, i | Wrote(f, i) ::
        && temps[(f, i)].Temp? && temps[(f, i)] in disk && disk[temps[(f, i)]] == Content(log, f, i)
        && IthmbFilename(f, i) !in ProtectedOf(f) && StartOf(f) < i
    }

    ghost predicate OwnTemps() {
      forall f, i, g, j | Wrote(f, i) && Wrote(g, j) && temps[(f, i)] == temps[(g, j)] :: f == g && i == j
    }

    ghost predicate Recorded() {
      forall k | 0 <= k < |log| :: Wrote(log[k].f, log[k].index)
    }

    ghost predicate Stored() {
      HoldsFrames() && OwnTemps() && Recorded() && Aligned(log)
    }

    /** The cursor of an open format is at the end of its newest shard. */
    ghost predicate Cursored() {
      && open <= cursors.Keys
      && (forall f, i: nat | Wrote(f, i) :: f in open && i <= cursors[f].index)
      && (forall f | f in open :: Wrote(f, cursors[f].index) && cursors[f].offset == |Content(log, f, cursors[f].index)|)
      && (forall f | f in cursors && f !in open :: cursors[f] == Cursor(StartOf(f), 0))
    }

    /** The shards of a format follow its start, and only protected names were passed over. */
    ghost predicate Contiguous() {
      && (forall f, i: nat | Wrote(f, i) :: f in cursors && i <= cursors[f].index)
      && (forall f, j | f in cursors && StartOf(f) < j <= cursors[f].index && !Wrote(f, j) ::
            IthmbFilename(f, j) in ProtectedOf(f))
    }

    ghost predicate AllFit(f: nat) {
      forall k | 0 <= k < |log| && log[k].f == f :: |log[k].data| <= ITHMB_MAX_SIZE_BYTES
    }

    /** A shard exceeds the budget only when a single frame does, a format that fits one shard uses
        one shard, and no shard is without a frame. */
    ghost predicate Budgeted() {
      && (forall f, i | Wrote(f, i) && AllFit(f) :: |Content(log, f, i)| <= ITHMB_MAX_SIZE_BYTES)
      && (forall f, i | Wrote(f, i) && Total(log, f) <= ITHMB_MAX_SIZE_BYTES ::
            f in cursors && i == cursors[f].index && |Content(log, f, i)| == Total(log, f))
      && (forall f, i | Wrote(f, i) :: HasFrame(log, f, i))
      && Greedy(log)
    }

    ghost predicate Valid() {
      Stored() && Cursored() && Contiguous() && Budgeted()
    }
  }

  lemma {:induction false} NoFrames(log: Log, f: nat, index: nat)
    requires forall k | 0 <= k < |log| :: log[k].f != f || log[k].index != index
    ensures Content(log, f, index) == []
  {
    if log != [] {
      NoFrames(log[..|log| - 1], f, index);
    }
  }

  lemma {:induction false} NoTotal(log: Log, f: nat)
    requires forall k | 0 <= k < |log| :: log[k].f != f
    ensures Total(log, f) == 0
  {
    if log != [] {
      NoTotal(log[..|log| - 1], f);
    }
  }

  lemma {:induction false} ContentAtMostTotal(log: Log, f: nat, index: nat)
    ensures |Content(log, f, index)| <= Total(log, f)
  {
    if log != [] {
      ContentAtMostTotal(log[..|log| - 1], f, index);
    }
  }

  /** A new, empty shard. */
  ghost function Opened(s: Shards, f: nat, index: nat, serial: nat): Shards {
    s.(disk := s.disk[Temp(serial) := []], temps := s.temps[(f, index) := Temp(serial)],
       cursors := s.cursors[f := Cursor(index, 0)], open := s.open + {f})
  }

  lemma OpenedStored(s: Shards, f: nat, index: nat, serial: nat)
    requires s.Stored() && s.Cursored() && f in s.cursors && index > s.cursors[f].index
    requires Temp(serial) !in s.disk && IthmbFilename(f, index) !in s.ProtectedOf(f) && s.StartOf(f) < index
    ensures Opened(s, f, index, serial).Stored()
  {
    hide Content;
    hide IthmbFilename;
    hide Aligned;
    hide Shards.ProtectedOf;
    hide Shards.StartOf;
    NoFrames(s.log, f, index);
    var t := Opened(s, f, index, serial);
    forall g, i | t.Wrote(g, i)
      ensures t.temps[(g, i)].Temp? && t.temps[(g, i)] in t.disk && t.disk[t.temps[(g, i)]] == Content(t.log, g, i)
      ensures IthmbFilename(g, i) !in t.ProtectedOf(g) && t.StartOf(g) < i
    {
      SameNames(s, t, g);
      assert (g == f && i == index) || s.Wrote(g, i);
    }
  }

  lemma OpenedCursored(s: Shards, f: nat, index: nat, serial: nat)
    requires s.Stored() && s.Cursored() && f in s.cursors && index > s.cursors[f].index
    ensures Opened(s, f, index, serial).Cursored()
  {
    hide Content;
    hide Aligned;
    hide IthmbFilename;
    NoFrames(s.log, f, index);
    var t := Opened(s, f, index, serial);
    assert forall g, i: nat :: t.Wrote(g, i) <==> (g == f && i == index) || s.Wrote(g, i);
    assert forall g | g in t.open && g != f :: g in s.open && t.cursors[g] == s.cursors[g];
    assert t.Wrote(f, index);
  }

  lemma OpenedContiguous(s: Shards, f: nat, index: nat, serial: nat)
    requires s.Contiguous() && f in s.cursors && index > s.cursors[f].index
    requires forall j | s.cursors[f].index < j < index :: IthmbFilename(f, j) in s.ProtectedOf(f)
    ensures Opened(s, f, index, serial).Contiguous()
  {
    hide IthmbFilename;
    var t := Opened(s, f, index, serial);
    assert forall g, i: nat :: t.Wrote(g, i) <==> (g == f && i == index) || s.Wrote(g, i);
  }

  /** A frame written at the end of the newest shard of its format. */
  ghost function Append(s: Shards, r: Record): Shards
    requires (r.f, r.index) in s.temps && s.temps[(r.f, r.index)] in s.disk && r.f in s.cursors
  {
    var temp := s.temps[(r.f, r.index)];
    s.(disk := s.disk[temp := s.disk[temp] + r.data],
       cursors := s.cursors[r.f := Cursor(r.index, r.offset + |r.data|)],
       log := s.log + [r])
  }

  ghost predicate AtCursor(s: Shards, r: Record)
    requires s.Cursored()
  {
    r.f in s.open && r.index == s.cursors[r.f].index && r.offset == s.cursors[r.f].offset
  }

  lemma AppendStored(s: Shards, r: Record)
    requires s.Stored() && s.Cursored() && AtCursor(s, r)
    ensures Append(s, r).Stored()
  {
    hide Content;
    hide IthmbFilename;
    hide Aligned;
    hide Shards.HoldsFrames;
    AppendAligned(s.log, r);
    AppendHolds(s, r);
  }

  lemma AppendHolds(s: Shards, r: Record)
    requires s.HoldsFrames() && s.OwnTemps() && r.f in s.cursors && s.Wrote(r.f, r.index)
    ensures Append(s, r).HoldsFrames()
  {
    hide Content;
    hide IthmbFilename;
    hide Shards.StartOf;
    hide Shards.ProtectedOf;
    var t := Append(s, r);
    forall f, i | t.Wrote(f, i)
      ensures t.temps[(f, i)].Temp? && t.temps[(f, i)] in t.disk && t.disk[t.temps[(f, i)]] == Content(t.log, f, i)
      ensures IthmbFilename(f, i) !in t.ProtectedOf(f) && t.StartOf(f) < i
    {
      AppendedAt(s, r, f, i);
    }
  }

  lemma AppendedAt(s: Shards, r: Record, f: nat, i: nat)
    requires s.HoldsFrames() && s.OwnTemps() && r.f in s.cursors && s.Wrote(r.f, r.index) && s.Wrote(f, i)
    ensures var t := Append(s, r);
      && t.Wrote(f, i) && t.temps[(f, i)].Temp? && t.temps[(f, i)] in t.disk && t.disk[t.temps[(f, i)]] == Content(t.log, f, i)
      && IthmbFilename(f, i) !in t.ProtectedOf(f) && t.StartOf(f) < i
  {
    hide Content;
    hide IthmbFilename;
    hide Shards.StartOf;
    hide Shards.ProtectedOf;
    Appended(s.log, r, f, i);
    SameNames(s, Append(s, r), f);
    if !(f == r.f && i == r.index) {
      assert s.temps[(f, i)] != s.temps[(r.f, r.index)];
    }
  }

  lemma SameNames(s: Shards, t: Shards, f: nat)
    requires t.start == s.start && t.protected == s.protected
    ensures t.StartOf(f) == s.StartOf(f) && t.ProtectedOf(f) == s.ProtectedOf(f)
  {
  }

  lemma AppendAligned(log: Log, r: Record)
    requires Aligned(log) && r.offset == |Content(log, r.f, r.index)|
    ensures Aligned(log + [r])
  {
    hide Content;
    var all := log + [r];
    forall k | 0 <= k < |all| ensures all[k].offset == |Content(all[..k], all[k].f, all[k].index)| {
      assert all[..k] == log[..k];
      if k == |log| { assert log[..k] == log; }
    }
  }

  lemma AppendCursored(s: Shards, r: Record)
    requires s.Stored() && s.Cursored() && AtCursor(s, r)
    ensures Append(s, r).Cursored()
  {
    hide Content;
    hide IthmbFilename;
    hide Aligned;
    var t := Append(s, r);
    assert forall g, i: nat :: t.Wrote(g, i) <==> s.Wrote(g, i);
    assert forall g | g in t.open && g != r.f :: t.cursors[g] == s.cursors[g];
    forall f, i ensures Content(t.log, f, i) == Content(s.log, f, i) + (if r.f == f && r.index == i then r.data else []) {
      Appended(s.log, r, f, i);
    }
  }

  lemma AppendContiguous(s: Shards, r: Record)
    requires s.Stored() && s.Cursored() && s.Contiguous() && AtCursor(s, r)
    ensures Append(s, r).Contiguous()
  {
    hide Content;
    hide IthmbFilename;
    hide Aligned;
  }

  lemma TempThere(s: Shards, r: Record)
    requires s.Stored() && s.Cursored() && AtCursor(s, r)
    ensures s.Wrote(r.f, r.index) && s.temps[(r.f, r.index)] in s.disk && r.f in s.cursors
  {
    hide Content;
    hide Aligned;
    hide IthmbFilename;
  }

  lemma FitBefore(log: Log, r: Record, s: Shards, t: Shards, f: nat)
    requires s.log == log && t.log == log + [r] && t.AllFit(f)
    ensures s.AllFit(f) && (f == r.f ==> |r.data| <= ITHMB_MAX_SIZE_BYTES)
  {
    assert t.log[|log|] == r;
    assert forall k | 0 <= k < |log| :: t.log[k] == log[k];
  }

  lemma IndicesBelow(s: Shards, f: nat)
    requires s.Valid() && f in s.cursors
    ensures forall k | 0 <= k < |s.log| && s.log[k].f == f :: s.log[k].index <= s.cursors[f].index
    ensures f !in s.open ==> forall k | 0 <= k < |s.log| :: s.log[k].f != f
    ensures f in s.open ==> HasFrame(s.log, f, s.cursors[f].index) && s.cursors[f].offset == |Content(s.log, f, s.cursors[f].index)|
  {
    hide Content;
    hide Aligned;
    hide Total;
    hide Greedy;
    hide HasFrame;
    hide IthmbFilename;
    forall k | 0 <= k < |s.log| && s.log[k].f == f ensures f in s.open && s.log[k].index <= s.cursors[f].index {
      assert s.Wrote(f, s.log[k].index);
    }
    if f in s.open {
      assert s.Wrote(f, s.cursors[f].index);
    }
  }

  lemma GreedyHere(s: Shards, r: Record)
    requires s.Valid() && AtCursor(s, r)
    ensures Greedy(s.log + [r])
  {
    hide Content;
    hide Aligned;
    hide Greedy;
    hide HasFrame;
    hide Shards.Stored;
    IndicesBelow(s, r.f);
    GreedyAppend(s.log, r);
  }

  lemma GreedyNext(s: Shards, r: Record)
    requires s.Valid() && r.f in s.cursors && r.index > s.cursors[r.f].index
    requires r.f in s.open ==> s.cursors[r.f].offset + |r.data| > ITHMB_MAX_SIZE_BYTES
    ensures Greedy(s.log + [r])
  {
    hide Content;
    hide Aligned;
    hide Greedy;
    hide Shards.Stored;
    hide Shards.Cursored;
    hide Shards.Contiguous;
    IndicesBelow(s, r.f);
    forall h: nat | JustBefore(s.log, r.f, h, r.index) ensures |Content(s.log, r.f, h)| + |r.data| > ITHMB_MAX_SIZE_BYTES {
      var k :| 0 <= k < |s.log| && s.log[k].f == r.f && s.log[k].index == h;
      if h < s.cursors[r.f].index { assert false; }
    }
    GreedyAppend(s.log, r);
  }

  /** Writing without rolling over. */
  lemma AppendBudgeted(s: Shards, r: Record)
    requires s.Valid() && AtCursor(s, r)
    requires r.offset == 0 || r.offset + |r.data| <= ITHMB_MAX_SIZE_BYTES
    ensures Append(s, r).Budgeted()
  {
    hide Content;
    hide Total;
    hide Aligned;
    hide Shards.HoldsFrames;
    hide Shards.OwnTemps;
    hide Shards.Recorded;
    hide Shards.Contiguous;
    hide Shards.AllFit;
    TempThere(s, r);
    GreedyHere(s, r);
    hide HasFrame;
    hide Greedy;
    var t := Append(s, r);
    forall f, i | t.Wrote(f, i)
      ensures t.AllFit(f) ==> |Content(t.log, f, i)| <= ITHMB_MAX_SIZE_BYTES
      ensures Total(t.log, f) <= ITHMB_MAX_SIZE_BYTES ==>
                f in t.cursors && i == t.cursors[f].index && |Content(t.log, f, i)| == Total(t.log, f)
      ensures HasFrame(t.log, f, i)
    {
      assert s.Wrote(f, i);
      HasFrameMore(s.log, r, f, i);
      Appended(s.log, r, f, i);
      if t.AllFit(f) { FitBefore(s.log, r, s, t, f); }
    }
  }

  /** Writing the first frame of a new shard: the format's first, or one that did not fit. */
  lemma RolledBudgeted(s: Shards, r: Record, serial: nat)
    requires s.Valid() && r.f in s.cursors && r.index > s.cursors[r.f].index && r.offset == 0
    requires r.f in s.open ==> s.cursors[r.f].offset + |r.data| > ITHMB_MAX_SIZE_BYTES
    requires Temp(serial) !in s.disk
    ensures Append(Opened(s, r.f, r.index, serial), r).Budgeted()
  {
    hide Content;
    hide Total;
    hide Aligned;
    hide Shards.HoldsFrames;
    hide Shards.OwnTemps;
    hide Shards.AllFit;
    GreedyNext(s, r);
    hide HasFrame;
    hide Greedy;
    var t := Append(Opened(s, r.f, r.index, serial), r);
    NoFrames(s.log, r.f, r.index);
    if r.f in s.open {
      ContentAtMostTotal(s.log, r.f, s.cursors[r.f].index);
    } else {
      NoTotal(s.log, r.f);
    }
    forall f, i | t.Wrote(f, i)
      ensures t.AllFit(f) ==> |Content(t.log, f, i)| <= ITHMB_MAX_SIZE_BYTES
      ensures Total(t.log, f) <= ITHMB_MAX_SIZE_BYTES ==>
                f in t.cursors && i == t.cursors[f].index && |Content(t.log, f, i)| == Total(t.log, f)
      ensures HasFrame(t.log, f, i)
    {
      assert (f == r.f && i == r.index) || s.Wrote(f, i);
      HasFrameMore(s.log, r, f, i);
      Appended(s.log, r, f, i);
      if t.AllFit(f) { FitBefore(s.log, r, s, t, f); }
    }
  }

  /** Every shard is within the budget exactly when every frame is, in whatever order they came. */
  lemma WithinBudgetIff(s: Shards)
    requires s.Stored() && s.Budgeted()
    ensures (forall f, i | s.Wrote(f, i) :: |Content(s.log, f, i)| <= ITHMB_MAX_SIZE_BYTES)
            <==> (forall k | 0 <= k < |s.log| :: |s.log[k].data| <= ITHMB_MAX_SIZE_BYTES)
  {
    hide Content;
    hide Total;
    hide IthmbFilename;
    hide Aligned;
    forall k | 0 <= k < |s.log| ensures |s.log[k].data| <= |Content(s.log, s.log[k].f, s.log[k].index)| {
      FrameInShard(s.log, k);
    }
    if forall k | 0 <= k < |s.log| :: |s.log[k].data| <= ITHMB_MAX_SIZE_BYTES {
      forall f, i | s.Wrote(f, i) ensures |Content(s.log, f, i)| <= ITHMB_MAX_SIZE_BYTES {
        assert s.AllFit(f);
      }
    }
    if forall f, i | s.Wrote(f, i) :: |Content(s.log, f, i)| <= ITHMB_MAX_SIZE_BYTES {
      forall k | 0 <= k < |s.log| ensures |s.log[k].data| <= ITHMB_MAX_SIZE_BYTES {
        assert s.Wrote(s.log[k].f, s.log[k].index);
      }
    }
  }

  /** If all frames of a format fit one shard and the first shard after its start is free, that
      shard is the only one written for it. */
  lemma OnlyFirstShard(s: Shards, f: nat, index: nat)
    requires s.Contiguous() && s.Budgeted() && Total(s.log, f) <= ITHMB_MAX_SIZE_BYTES
    requires IthmbFilename(f, s.StartOf(f) + 1) !in s.ProtectedOf(f)
    requires s.Stored() && exists i :: s.Wrote(f, i)
    ensures s.Wrote(f, index) <==> index == s.StartOf(f) + 1
  {
    hide IthmbFilename;
    hide Content;
    hide Total;
    hide Aligned;
    var i :| s.Wrote(f, i);
    assert s.StartOf(f) + 1 <= s.cursors[f].index;
    assert s.Wrote(f, s.StartOf(f) + 1);
  }

  /** A format goes on to another shard only with a frame that does not fit the one before. */
  lemma NextOnlyWhenFull(s: Shards, k: nat, h: nat)
    requires s.Budgeted() && k < |s.log| && h < s.log[k].index && HasFrame(s.log, s.log[k].f, h)
    requires forall j | 0 <= j < k :: s.log[j].f != s.log[k].f || s.log[j].index < s.log[k].index
    requires forall j | 0 <= j < k && s.log[j].f == s.log[k].f :: s.log[j].index <= h
    ensures |Content(s.log, s.log[k].f, h)| + |s.log[k].data| > ITHMB_MAX_SIZE_BYTES
  {
    hide Content;
    hide Total;
    hide Aligned;
    forall g | h < g < s.log[k].index ensures !HasFrame(s.log, s.log[k].f, g) {
      if HasFrame(s.log, s.log[k].f, g) {
        var j :| 0 <= j < |s.log| && s.log[j].f == s.log[k].f && s.log[j].index == g;
        if j > k { assert false; }
      }
    }
    assert FirstIn(s.log, k) && JustBefore(s.log, s.log[k].f, h, s.log[k].index);
  }
}
