/** `_select_ithmb_rewrite_plan`: which numbered shard takes the new frames of each format. */
module IthmbPlanner {
  import opened Outcomes
  import opened Bytes
  import opened ArtworkTypes
  import opened IthmbPaths

  const ITHMB_MAX_SIZE_BYTES: int := 32_000_000

  /** Identifies the frames that several tracks share. */
  datatype AssetRef = AssetRef(source: string, value: string)

  datatype DecisionKind = NewFromPc | PreserveExisting | ClearArt | PreserveFallback

  datatype Decision = Decision(
    kind: DecisionKind,
    asset: Option<AssetRef>,
    existing: Option<ExistingEntry>,
    art: Option<Bytes>
  ) {
    /** Keeps frames that are already on the device. */
    predicate Preserves() {
      (kind.PreserveExisting? || kind.PreserveFallback?) && asset.Some? && existing.Some?
    }
  }

  type Payload = map<nat, FormatPayload>

  /** The index of the shard that holds `e`'s frame of format `f`, if it is a numbered one. */
  function Named(e: ExistingEntry, f: nat): Option<nat> {
    if f !in e.formats then None
    else
      var index := FileIndex(e.formats[f].filename, f);
      if index.Some? && index.value >= 1 then Some(index.value) else None
  }

  /** The name in use for shard `index`; a later entry replaces an earlier one. */
  function NameInUse(existing: seq<ExistingEntry>, f: nat, index: nat): Option<string> {
    if existing == [] then None
    else
      var last := existing[|existing| - 1];
      if Named(last, f) == Some(index) then Some(last.formats[f].filename)
      else NameInUse(existing[..|existing| - 1], f, index)
  }

  /** The name of shard `index`: the one in use, or else the canonical one. */
  function NameAt(existing: seq<ExistingEntry>, f: nat, index: nat): string {
    var name := NameInUse(existing, f, index);
    if name.Some? then name.value else IthmbFilename(f, index)
  }

  /** Decision `i` is the first that preserves its asset. */
  predicate FirstForAsset(decisions: seq<Decision>, i: nat)
    requires i < |decisions|
  {
    decisions[i].Preserves() && forall j | 0 <= j < i :: decisions[j].Preserves() ==> decisions[j].asset != decisions[i].asset
  }

  function FrameBytes(d: Decision, f: nat, filename: string): nat
    requires d.Preserves()
  {
    var formats := d.existing.value.formats;
    if f in formats && formats[f].filename == filename && FileIndex(filename, f).Some? then formats[f].size else 0
  }

  /** Bytes of preserved frames in one shard, each asset counted once. */
  function PreservedBytes(decisions: seq<Decision>, f: nat, filename: string): nat {
    if decisions == [] then 0
    else
      var n := |decisions| - 1;
      PreservedBytes(decisions[..n], f, filename)
        + (if FirstForAsset(decisions, n) then FrameBytes(decisions[n], f, filename) else 0)
  }

  /** Sizes of the new frames of one format. */
  function NewSizes(payloads: seq<Payload>, f: nat): seq<int> {
    if payloads == [] then []
    else
      var last := payloads[|payloads| - 1];
      NewSizes(payloads[..|payloads| - 1], f) + (if f in last && last[f].Encoded? then [last[f].size] else [])
  }

  function Sum(s: seq<int>): int {
    if s == [] then 0 else Sum(s[..|s| - 1]) + s[|s| - 1]
  }

  function Largest(s: seq<int>): int
    requires s != []
  {
    if |s| == 1 then s[0] else Max(Largest(s[..|s| - 1]), s[|s| - 1])
  }

  lemma {:induction false} LargestSpec(s: seq<int>)
    requires s != []
    ensures Largest(s) in s && forall x | x in s :: x <= Largest(s)
  {
    if |s| > 1 {
      LargestSpec(s[..|s| - 1]);
      assert s == s[..|s| - 1] + [s[|s| - 1]];
    }
  }

  /** Everything the choice for one format depends on. */
  datatype Candidates = Candidates(existing: seq<ExistingEntry>, decisions: seq<Decision>, f: nat, last: nat) {
    predicate Fits(index: nat, extra: int) {
      PreservedBytes(decisions, f, NameAt(existing, f, index)) + extra <= ITHMB_MAX_SIZE_BYTES
    }

    /** The lowest index in 1..last+1 whose shard has room for `extra` more bytes. */
    ghost predicate IsLowest(index: nat, extra: int) {
      1 <= index <= last + 1 && Fits(index, extra) && forall j | 1 <= j < index :: !Fits(j, extra)
    }

    ghost predicate NoneFits(extra: int) {
      forall j | 1 <= j <= last + 1 :: !Fits(j, extra)
    }

    /** The lowest shard with room for all new frames; failing that, for the largest of them. */
    ghost predicate IsChoice(index: nat, sizes: seq<int>)
      requires sizes != []
    {
      IsLowest(index, Sum(sizes)) || (NoneFits(Sum(sizes)) && IsLowest(index, Largest(sizes)))
    }
  }

  type Names = map<(nat, nat), string>

  function Lookup(names: Names, f: nat, index: nat): Option<string> {
    if (f, index) in names then Some(names[(f, index)]) else None
  }

  /** The first loop: index the shard names in use. */
  method CollectNames(existing: seq<ExistingEntry>) returns (names: Names)
    ensures forall f, index: nat :: Lookup(names, f, index) == NameInUse(existing, f, index)
  {
    hide Named;
    names := map[];
    for i := 0 to |existing|
      invariant forall f, index: nat :: Lookup(names, f, index) == NameInUse(existing[..i], f, index)
    {
      names := AddNames(names, existing[i]);
      assert existing[..i + 1][..i] == existing[..i];
    }
    assert existing[..|existing|] == existing;
  }

  /** The inner loop over the frames of one entry. */
  method AddNames(names: Names, e: ExistingEntry) returns (r: Names)
    ensures forall f, index: nat ::
      (Lookup(r, f, index) == if Named(e, f) == Some(index) then Some(e.formats[f].filename) else Lookup(names, f, index))
  {
    hide FileIndex;
    r := names;
    var todo := e.formats.Keys;
    while todo != {}
      invariant todo <= e.formats.Keys
      invariant forall f, index: nat ::
        (Lookup(r, f, index) ==
           if f !in todo && Named(e, f) == Some(index) then Some(e.formats[f].filename) else Lookup(names, f, index))
      decreases todo
    {
      var f :| f in todo;
      var index := FileIndex(e.formats[f].filename, f);
      if index.Some? && index.value >= 1 {
        r := r[(f, index.value) := e.formats[f].filename];
      }
      todo := todo - {f};
    }
  }

  type ByteCounts = map<(nat, string), nat>

  function CountAt(counts: ByteCounts, f: nat, filename: string): nat {
    if (f, filename) in counts then counts[(f, filename)] else 0
  }

  /** The second loop: bytes to keep in each shard, each preserved asset counted once. */
  method CollectPreserved(decisions: seq<Decision>) returns (counts: ByteCounts)
    ensures forall f, name :: CountAt(counts, f, name) == PreservedBytes(decisions, f, name)
  {
    hide FrameBytes;
    counts := map[];
    var seen: set<AssetRef> := {};
    for i := 0 to |decisions|
      invariant forall f, name :: CountAt(counts, f, name) == PreservedBytes(decisions[..i], f, name)
      invariant forall a :: a in seen <==> exists j | 0 <= j < i :: decisions[j].Preserves() && decisions[j].asset.value == a
    {
      var d := decisions[i];
      assert decisions[..i + 1][..i] == decisions[..i];
      FirstForAssetPrefix(decisions, i);
      if d.Preserves() && d.asset.value !in seen {
        ghost var before := counts;
        counts := AddFrames(counts, d);
        seen := seen + {d.asset.value};
      }
    }
    assert decisions[..|decisions|] == decisions;
  }

  lemma FirstForAssetPrefix(decisions: seq<Decision>, i: nat)
    requires i < |decisions|
    ensures FirstForAsset(decisions[..i + 1], i) <==> FirstForAsset(decisions, i)
  {
    assert forall j | 0 <= j < i :: decisions[..i + 1][j] == decisions[j];
  }

  /** The inner loop over the frames of one preserved entry. */
  method AddFrames(counts: ByteCounts, d: Decision) returns (r: ByteCounts)
    requires d.Preserves()
    ensures forall f, name :: CountAt(r, f, name) == CountAt(counts, f, name) + FrameBytes(d, f, name)
  {
    hide FileIndex;
    r := counts;
    var formats := d.existing.value.formats;
    var todo := formats.Keys;
    while todo != {}
      invariant todo <= formats.Keys
      invariant forall f, name ::
        CountAt(r, f, name) == CountAt(counts, f, name) + if f in todo then 0 else FrameBytes(d, f, name)
      decreases todo
    {
      var f :| f in todo;
      var filename := formats[f].filename;
      if FileIndex(filename, f).Some? {
        r := r[(f, filename) := CountAt(r, f, filename) + formats[f].size];
      }
      todo := todo - {f};
    }
  }

  type SizeLists = map<nat, seq<int>>

  /** The third loop: sizes of the new frames, by format. */
  method CollectNewSizes(payloads: seq<Payload>) returns (sizes: SizeLists)
    ensures forall f :: f in sizes <==> NewSizes(payloads, f) != []
    ensures forall f | f in sizes :: sizes[f] == NewSizes(payloads, f)
  {
    sizes := map[];
    for i := 0 to |payloads|
      invariant forall f :: f in sizes <==> NewSizes(payloads[..i], f) != []
      invariant forall f | f in sizes :: sizes[f] == NewSizes(payloads[..i], f)
    {
      assert payloads[..i + 1][..i] == payloads[..i];
      ghost var before := sizes;
      sizes := AddSizes(sizes, payloads[i]);
      forall f ensures (f in sizes <==> NewSizes(payloads[..i + 1], f) != [])
                       && (f in sizes ==> sizes[f] == NewSizes(payloads[..i + 1], f)) {
        assert SizesAt(before, f) == NewSizes(payloads[..i], f);
        assert SizesAt(sizes, f) == NewSizes(payloads[..i + 1], f);
      }
    }
    assert payloads[..|payloads|] == payloads;
  }

  function SizesAt(sizes: SizeLists, f: nat): seq<int> {
    if f in sizes then sizes[f] else []
  }

  /** The size that a payload adds to the list of a format. */
  function SizeIn(payload: Payload, f: nat): seq<int> {
    if f in payload && payload[f].Encoded? then [payload[f].size] else []
  }

  method AddSizes(sizes: SizeLists, payload: Payload) returns (r: SizeLists)
    requires forall f | f in sizes :: sizes[f] != []
    ensures forall f | f in r :: r[f] != []
    ensures forall f :: SizesAt(r, f) == SizesAt(sizes, f) + SizeIn(payload, f)
  {
    hide SizeIn;
    r := sizes;
    var todo := payload.Keys;
    while todo != {}
      invariant todo <= payload.Keys
      invariant forall f | f in r :: r[f] != []
      invariant forall f | f in todo :: SizesAt(r, f) == SizesAt(sizes, f)
      invariant forall f | f in payload.Keys - todo :: SizesAt(r, f) == SizesAt(sizes, f) + SizeIn(payload, f)
      invariant forall f | f !in payload :: SizesAt(r, f) == SizesAt(sizes, f)
      decreases todo
    {
      var f :| f in todo;
      SizeInEncoded(payload, f);
      if payload[f].Encoded? {
        r := r[f := SizesAt(r, f) + [payload[f].size]];
      }
      todo := todo - {f};
    }
    forall f ensures SizesAt(r, f) == SizesAt(sizes, f) + SizeIn(payload, f) {
      if f !in payload { NoSizeIn(payload, f); }
    }
  }

  lemma SizeInEncoded(payload: Payload, f: nat)
    requires f in payload
    ensures SizeIn(payload, f) == if payload[f].Encoded? then [payload[f].size] else []
  {
  }

  lemma NoSizeIn(payload: Payload, f: nat)
    requires f !in payload
    ensures SizeIn(payload, f) == []
  {
  }

  ghost predicate IsMaxIndex(existing: seq<ExistingEntry>, f: nat, last: nat) {
    && (forall i: nat | NameInUse(existing, f, i).Some? :: i <= last)
    && (last == 0 || NameInUse(existing, f, last).Some?)
  }

  /** `max(filenames, default=0)` */
  method MaxIndex(names: Names, f: nat, ghost existing: seq<ExistingEntry>) returns (last: nat)
    requires forall index: nat :: Lookup(names, f, index) == NameInUse(existing, f, index)
    ensures IsMaxIndex(existing, f, last)
  {
    hide NameInUse;
    last := 0;
    var todo := names.Keys;
    while todo != {}
      invariant todo <= names.Keys
      invariant forall i | (f, i) in names.Keys - todo :: i <= last
      invariant last == 0 || (f, last) in names
      decreases todo
    {
      var key: (nat, nat) :| key in todo;
      if key.0 == f && key.1 > last {
        last := key.1;
      }
      todo := todo - {key};
    }
    forall i: nat | NameInUse(existing, f, i).Some? ensures i <= last {
      assert Lookup(names, f, i).Some?;
    }
    assert last == 0 || Lookup(names, f, last).Some?;
  }

  /** `for index in range(1, last + 2)`: the first index that fits, or None. */
  method FirstFit(c: Candidates, names: Names, counts: ByteCounts, extra: int) returns (r: Option<nat>)
    requires forall index: nat :: Lookup(names, c.f, index) == NameInUse(c.existing, c.f, index)
    requires forall name :: CountAt(counts, c.f, name) == PreservedBytes(c.decisions, c.f, name)
    ensures r.Some? ==> c.IsLowest(r.value, extra)
    ensures r.None? ==> c.NoneFits(extra)
  {
    hide PreservedBytes;
    hide NameInUse;
    hide IthmbFilename;
    for index := 1 to c.last + 2
      invariant forall j | 1 <= j < index :: !c.Fits(j, extra)
    {
      var found := Lookup(names, c.f, index);
      var filename := if found.Some? then found.value else IthmbFilename(c.f, index);
      if CountAt(counts, c.f, filename) + extra <= ITHMB_MAX_SIZE_BYTES {
        return Some(index);
      }
    }
    return None;
  }

  /** The rewrite plan: per format, the shard to rewrite and the index just before it. */
  datatype Plan = Plan(rewrite: map<nat, string>, start: map<nat, nat>)

  ghost predicate IsPlan(existing: seq<ExistingEntry>, decisions: seq<Decision>, payloads: seq<Payload>, plan: Plan) {
    && plan.rewrite.Keys == plan.start.Keys
    && (forall f :: f in plan.start <==> NewSizes(payloads, f) != [])
    && (forall f | f in plan.start :: Planned(existing, decisions, NewSizes(payloads, f), f, plan.start[f] + 1, plan.rewrite[f]))
  }

  ghost predicate Planned(existing: seq<ExistingEntry>, decisions: seq<Decision>, sizes: seq<int>, f: nat, index: nat, filename: string)
  {
    && filename == NameAt(existing, f, index)
    && sizes != []
    && exists last: nat :: IsMaxIndex(existing, f, last) && Candidates(existing, decisions, f, last).IsChoice(index, sizes)
  }

  /** No shard, old or new, has room for the largest new frame of some format. */
  ghost predicate Hopeless(existing: seq<ExistingEntry>, decisions: seq<Decision>, payloads: seq<Payload>, f: nat) {
    && NewSizes(payloads, f) != []
    && exists last: nat :: IsMaxIndex(existing, f, last)
         && Candidates(existing, decisions, f, last).NoneFits(Largest(NewSizes(payloads, f)))
  }

  /** The choice for one format. */
  method ChooseShard(c: Candidates, names: Names, counts: ByteCounts, sizes: seq<int>) returns (r: Option<nat>)
    requires forall index: nat :: Lookup(names, c.f, index) == NameInUse(c.existing, c.f, index)
    requires forall name :: CountAt(counts, c.f, name) == PreservedBytes(c.decisions, c.f, name)
    requires sizes != []
    ensures r.Some? ==> c.IsChoice(r.value, sizes)
    ensures r.None? ==> c.NoneFits(Largest(sizes))
  {
    hide NameInUse;
    hide PreservedBytes;
    hide Largest;
    hide Sum;
    r := FirstFit(c, names, counts, Sum(sizes));
    if r.None? {
      r := FirstFit(c, names, counts, Largest(sizes));
    }
  }

  /** `_select_ithmb_rewrite_plan`; None when it raises RuntimeError. */
  method SelectRewritePlan(existing: seq<ExistingEntry>, decisions: seq<Decision>, payloads: seq<Payload>)
    returns (r: Option<Plan>)
    ensures r.Some? ==> IsPlan(existing, decisions, payloads, r.value)
    ensures r.None? ==> exists f :: Hopeless(existing, decisions, payloads, f)
    ensures FromExisting(decisions, existing) && (forall f: nat :: NonNegative(NewSizes(payloads, f))) ==>
              (r.None? <==> exists f :: TooLarge(payloads, f))
  {
    hide NameInUse;
    hide NewSizes;
    hide PreservedBytes;
    hide IsMaxIndex;
    hide Candidates.IsChoice;
    hide Candidates.NoneFits;
    hide Largest;
    hide NameAt;
    hide TooLarge;
    hide FromExisting;
    hide Hopeless;
    hide NonNegative;
    var names := CollectNames(existing);
    var counts := CollectPreserved(decisions);
    var sizes := CollectNewSizes(payloads);
    var plan := Plan(map[], map[]);
    var todo := sizes.Keys;
    while todo != {}
      invariant todo <= sizes.Keys
      invariant plan.rewrite.Keys == plan.start.Keys == sizes.Keys - todo
      invariant forall f | f in plan.start ::
        Planned(existing, decisions, NewSizes(payloads, f), f, plan.start[f] + 1, plan.rewrite[f])
      decreases todo
    {
      var f :| f in todo;
      var last := MaxIndex(names, f, existing);
      var c := Candidates(existing, decisions, f, last);
      var choice := ChooseShard(c, names, counts, sizes[f]);
      if choice.None? {
        NoRoom(existing, decisions, payloads, f, last);
        if FromExisting(decisions, existing) {
          HopelessIffTooLarge(existing, decisions, payloads, f);
        }
        return None;
      }
      var index := choice.value;
      var filename := NameAt(existing, f, index);
      assert index >= 1 by { ChoicePositive(c, index, sizes[f]); }
      assert Planned(existing, decisions, NewSizes(payloads, f), f, index, filename);
      plan := Plan(plan.rewrite[f := filename], plan.start[f := index - 1]);
      todo := todo - {f};
    }
    r := Some(plan);
    if forall f: nat :: NonNegative(NewSizes(payloads, f)) {
      forall f: nat ensures !TooLarge(payloads, f) {
        PlanAllFits(existing, decisions, payloads, plan, f);
      }
    }
  }

  lemma NoRoom(existing: seq<ExistingEntry>, decisions: seq<Decision>, payloads: seq<Payload>, f: nat, last: nat)
    requires NewSizes(payloads, f) != [] && IsMaxIndex(existing, f, last)
    requires Candidates(existing, decisions, f, last).NoneFits(Largest(NewSizes(payloads, f)))
    ensures Hopeless(existing, decisions, payloads, f)
  {
  }

  lemma PlanAllFits(existing: seq<ExistingEntry>, decisions: seq<Decision>, payloads: seq<Payload>, plan: Plan, f: nat)
    requires IsPlan(existing, decisions, payloads, plan) && NonNegative(NewSizes(payloads, f))
    ensures !TooLarge(payloads, f)
  {
    hide IsPlan;
    hide NewSizes;
    forall size | size in NewSizes(payloads, f) ensures size <= ITHMB_MAX_SIZE_BYTES {
      PlannedFits(existing, decisions, payloads, plan, f, size);
    }
  }

  lemma ChoicePositive(c: Candidates, index: nat, sizes: seq<int>)
    requires sizes != [] && c.IsChoice(index, sizes)
    ensures index >= 1
  {
  }

  /** Preserved entries come from the database that was read. */
  ghost predicate FromExisting(decisions: seq<Decision>, existing: seq<ExistingEntry>) {
    forall d | d in decisions && d.Preserves() :: d.existing.value in existing
  }

  lemma {:induction false} InUse(existing: seq<ExistingEntry>, f: nat, e: ExistingEntry)
    requires e in existing && Named(e, f).Some?
    ensures NameInUse(existing, f, Named(e, f).value).Some?
  {
    hide Named;
    var n := |existing| - 1;
    if Named(existing[n], f) != Named(e, f) {
      assert existing == existing[..n] + [existing[n]];
      InUse(existing[..n], f, e);
    }
  }

  lemma {:induction false} NothingPreserved(decisions: seq<Decision>, f: nat, filename: string)
    requires forall d | d in decisions && d.Preserves() :: FrameBytes(d, f, filename) == 0
    ensures PreservedBytes(decisions, f, filename) == 0
  {
    if decisions != [] {
      NothingPreserved(decisions[..|decisions| - 1], f, filename);
    }
  }

  /** The shard just past the last one in use is empty. */
  lemma NextShardEmpty(existing: seq<ExistingEntry>, decisions: seq<Decision>, f: nat, last: nat)
    requires FromExisting(decisions, existing) && IsMaxIndex(existing, f, last)
    ensures PreservedBytes(decisions, f, NameAt(existing, f, last + 1)) == 0
  {
    hide NameInUse;
    hide FileIndex;
    var filename := NameAt(existing, f, last + 1);
    assert filename == IthmbFilename(f, last + 1) by { assert NameInUse(existing, f, last + 1).None?; }
    forall d | d in decisions && d.Preserves() ensures FrameBytes(d, f, filename) == 0 {
      var e := d.existing.value;
      FileIndexInverts(f, last + 1);
      if f in e.formats && e.formats[f].filename == filename {
        InUse(existing, f, e);
      }
    }
    NothingPreserved(decisions, f, filename);
  }

  /** Some new frame of format `f` is larger than a shard may be. */
  ghost predicate TooLarge(payloads: seq<Payload>, f: nat) {
    exists size :: size in NewSizes(payloads, f) && size > ITHMB_MAX_SIZE_BYTES
  }

  /** The planner gives up on a format exactly when some new frame of it alone is larger than
      a shard may be, however full the shards in use are. */
  lemma HopelessIffTooLarge(existing: seq<ExistingEntry>, decisions: seq<Decision>, payloads: seq<Payload>, f: nat)
    requires FromExisting(decisions, existing)
    ensures Hopeless(existing, decisions, payloads, f) <==> TooLarge(payloads, f)
  {
    hide NameAt;
    hide NewSizes;
    hide PreservedBytes;
    hide NameInUse;
    hide IsMaxIndex;
    var sizes := NewSizes(payloads, f);
    if Hopeless(existing, decisions, payloads, f) {
      var last: nat :| IsMaxIndex(existing, f, last) && Candidates(existing, decisions, f, last).NoneFits(Largest(sizes));
      NextShardEmpty(existing, decisions, f, last);
      LargestSpec(sizes);
      assert !Candidates(existing, decisions, f, last).Fits(last + 1, Largest(sizes));
      assert Largest(sizes) in sizes;
    }
    if TooLarge(payloads, f) {
      LargestSpec(sizes);
      var last := HasMaxIndex(existing, f);
      assert Candidates(existing, decisions, f, last).NoneFits(Largest(sizes));
    }
  }

  predicate NonNegative(sizes: seq<int>) {
    forall i | 0 <= i < |sizes| :: sizes[i] >= 0
  }

  lemma {:induction false} SumAtLeast(sizes: seq<int>)
    requires NonNegative(sizes)
    ensures Sum(sizes) >= 0
    ensures forall i | 0 <= i < |sizes| :: sizes[i] <= Sum(sizes)
  {
    if sizes != [] {
      SumAtLeast(sizes[..|sizes| - 1]);
      assert forall i | 0 <= i < |sizes| - 1 :: sizes[i] == sizes[..|sizes| - 1][i];
    }
  }

  /** When there is a plan, every new frame fits a shard. */
  lemma PlannedFits(existing: seq<ExistingEntry>, decisions: seq<Decision>, payloads: seq<Payload>, plan: Plan, f: nat, size: int)
    requires IsPlan(existing, decisions, payloads, plan) && size in NewSizes(payloads, f)
    requires NonNegative(NewSizes(payloads, f))
    ensures size <= ITHMB_MAX_SIZE_BYTES
  {
    hide NameAt;
    hide NewSizes;
    hide IsMaxIndex;
    hide PreservedBytes;
    var sizes := NewSizes(payloads, f);
    assert f in plan.start;
    SumAtLeast(sizes);
    LargestSpec(sizes);
  }

  lemma OneMaxIndex(existing: seq<ExistingEntry>, f: nat, a: nat, b: nat)
    requires IsMaxIndex(existing, f, a) && IsMaxIndex(existing, f, b)
    ensures a == b
  {
    hide NameInUse;
  }

  /** Bytes kept in the shard with an index. */
  function KeptAt(existing: seq<ExistingEntry>, decisions: seq<Decision>, f: nat, index: nat): nat {
    PreservedBytes(decisions, f, NameAt(existing, f, index))
  }

  /** The planned shard has room for all new frames of its format whenever any shard has, and is the lowest
      that has; otherwise it is the lowest with room for the largest of them. Shards are looked for from the
      first up to the one after the last in use. */
  lemma PlannedRoom(existing: seq<ExistingEntry>, decisions: seq<Decision>, payloads: seq<Payload>, plan: Plan, f: nat, last: nat)
    requires IsPlan(existing, decisions, payloads, plan) && f in plan.start && IsMaxIndex(existing, f, last)
    ensures var index, sizes := plan.start[f] + 1, NewSizes(payloads, f);
      && sizes != [] && 1 <= index <= last + 1 && plan.rewrite[f] == NameAt(existing, f, index)
      && ((exists i :: 1 <= i <= last + 1 && KeptAt(existing, decisions, f, i) + Sum(sizes) <= 32_000_000) ==>
            && KeptAt(existing, decisions, f, index) + Sum(sizes) <= 32_000_000
            && forall i | 1 <= i < index :: KeptAt(existing, decisions, f, i) + Sum(sizes) > 32_000_000)
      && ((forall i | 1 <= i <= last + 1 :: KeptAt(existing, decisions, f, i) + Sum(sizes) > 32_000_000) ==>
            && KeptAt(existing, decisions, f, index) + Largest(sizes) <= 32_000_000
            && forall i | 1 <= i < index :: KeptAt(existing, decisions, f, i) + Largest(sizes) > 32_000_000)
  {
    hide NameAt;
    hide NewSizes;
    hide IsMaxIndex;
    hide PreservedBytes;
    hide Sum;
    hide Largest;
    var n: nat :| IsMaxIndex(existing, f, n) && Candidates(existing, decisions, f, n).IsChoice(plan.start[f] + 1, NewSizes(payloads, f));
    OneMaxIndex(existing, f, n, last);
    var c := Candidates(existing, decisions, f, last);
    var index, all, most := plan.start[f] + 1, Sum(NewSizes(payloads, f)), Largest(NewSizes(payloads, f));
    forall i: nat
      ensures c.Fits(i, all) <==> KeptAt(existing, decisions, f, i) + all <= 32_000_000
      ensures c.Fits(i, most) <==> KeptAt(existing, decisions, f, i) + most <= 32_000_000
    {
    }
    hide Candidates.Fits;
    hide KeptAt;
    if i :| 1 <= i <= last + 1 && KeptAt(existing, decisions, f, i) + all <= 32_000_000 {
      assert c.Fits(i, all);
      assert c.IsLowest(index, all);
      forall j | 1 <= j < index ensures KeptAt(existing, decisions, f, j) + all > 32_000_000 { assert !c.Fits(j, all); }
    } else {
      assert c.NoneFits(all) && c.IsLowest(index, most);
      forall j | 1 <= j < index ensures KeptAt(existing, decisions, f, j) + most > 32_000_000 { assert !c.Fits(j, most); }
    }
  }

  lemma {:induction false} HasMaxIndex(existing: seq<ExistingEntry>, f: nat) returns (last: nat)
    ensures IsMaxIndex(existing, f, last)
  {
    hide Named;
    if existing == [] {
      last := 0;
    } else {
      var n := |existing| - 1;
      var before := HasMaxIndex(existing[..n], f);
      var index := Named(existing[n], f);
      last := if index.Some? && index.value > before then index.value else before;
      forall i: nat | NameInUse(existing, f, i).Some? ensures i <= last {
        assert Named(existing[n], f) == Some(i) || NameInUse(existing[..n], f, i).Some?;
      }
    }
  }

  /** The name of a planned shard parses back to the planned index. */
  lemma {:induction false} NameAtIndex(existing: seq<ExistingEntry>, f: nat, index: nat)
    requires index >= 1
    ensures FileIndex(NameAt(existing, f, index), f) == Some(index)
  {
    if NameInUse(existing, f, index).None? {
      FileIndexInverts(f, index);
    } else {
      hide FileIndex;
      NameInUseIndex(existing, f, index);
    }
  }

  lemma {:induction false} NameInUseIndex(existing: seq<ExistingEntry>, f: nat, index: nat)
    requires NameInUse(existing, f, index).Some?
    ensures FileIndex(NameInUse(existing, f, index).value, f) == Some(index)
  {
    hide FileIndex;
    var n := |existing| - 1;
    if Named(existing[n], f) != Some(index) {
      NameInUseIndex(existing[..n], f, index);
    }
  }

  predicate HoldsIndex(e: ExistingEntry, f: nat, index: int) {
    f in e.formats && FileIndex(e.formats[f].filename, f) == Some(index)
  }

  /** A shard index is in use exactly when it is at least one and some existing frame of the format is in
      a file with that index; its name is then that of the last such frame. */
  lemma {:induction false} NameInUseIff(existing: seq<ExistingEntry>, f: nat, index: nat)
    ensures NameInUse(existing, f, index).Some? <==> index >= 1 && exists i :: 0 <= i < |existing| && HoldsIndex(existing[i], f, index)
    ensures forall i | 0 <= i < |existing| && HoldsIndex(existing[i], f, index) && index >= 1
              && (forall j | i < j < |existing| :: !HoldsIndex(existing[j], f, index)) ::
              NameInUse(existing, f, index) == Some(existing[i].formats[f].filename)
  {
    hide FileIndex;
    if existing != [] {
      var n := |existing| - 1;
      NameInUseIff(existing[..n], f, index);
      assert forall i | 0 <= i < n :: existing[..n][i] == existing[i];
      assert index >= 1 ==> (HoldsIndex(existing[n], f, index) <==> Named(existing[n], f) == Some(index));
    }
  }

  /** Bytes kept in files that are not numbered for the format are not counted against a shard. */
  lemma {:induction false} UnnumberedUncounted(decisions: seq<Decision>, f: nat, filename: string)
    ensures FileIndex(filename, f).None? ==> PreservedBytes(decisions, f, filename) == 0
  {
    hide FileIndex;
    if decisions != [] {
      UnnumberedUncounted(decisions[..|decisions| - 1], f, filename);
    }
  }
}
