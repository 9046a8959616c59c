/** Packed 16-bit rasters: which geometry a payload has, and what survives packing. */
module PackedGeometry {
  import opened Outcomes
  import opened Bytes

  /** A possible raster, with how well it agrees with the visible size and padding. */
  datatype Candidate = Candidate(priority: int, overflow: int, padDelta: int, width: int, height: int)

  function Positive(x: int): int {
    if x < 0 then 0 else x
  }

  function AtLeastOne(x: int): int {
    if x < 1 then 1 else x
  }

  function Abs(x: int): int {
    if x < 0 then -x else x
  }

  /** Tuples compare by their first difference. */
  predicate Before(a: Candidate, b: Candidate) {
    if a.priority != b.priority then a.priority < b.priority
    else if a.overflow != b.overflow then a.overflow < b.overflow
    else if a.padDelta != b.padDelta then a.padDelta < b.padDelta
    else if a.width != b.width then a.width < b.width
    else a.height < b.height
  }

  /** What a search looks for: a raster of `pixels` pixels near the visible size and its padding. */
  datatype Search = Search(pixels: nat, visW: int, visH: int, padW: int, padH: int, evenWidth: bool) {
    predicate Fits(width: int, height: int) {
      width > 0 && height > 0 && width * height == pixels && (evenWidth ==> width % 2 == 0)
    }

    predicate Proper() {
      visW >= 1 && visH >= 1 && padW >= 0 && padH >= 0
    }
  }

  type Candidates = seq<Candidate>

  /** A raster that is tried, and how much it is preferred: less is better. */
  datatype Offer = Offer(width: int, height: int, priority: int)

  type Offers = seq<Offer>

  function CandidateOf(s: Search, o: Offer): Candidate {
    var overflow := Positive(s.visW - o.width) + Positive(s.visH - o.height);
    var padDelta := Abs(o.width - s.visW - s.padW) + Abs(o.height - s.visH - s.padH);
    Candidate(o.priority, overflow, padDelta, o.width, o.height)
  }

  /** No earlier offer is of the same raster. */
  predicate IsFirst(offers: Offers, i: nat)
    requires i < |offers|
  {
    forall j | 0 <= j < i :: offers[j].width != offers[i].width || offers[j].height != offers[i].height
  }

  /** An offer that fits, at the priority its raster is first offered with. */
  predicate Leads(s: Search, offers: Offers, i: int): (r: bool)
    ensures r ==> 0 <= i < |offers|
  {
    0 <= i < |offers| && s.Fits(offers[i].width, offers[i].height) && IsFirst(offers, i)
  }

  /** The candidates are exactly the leading offers. */
  ghost predicate Collected(s: Search, offers: Offers, cs: Candidates) {
    && (forall c | c in cs :: exists i :: Leads(s, offers, i) && c == CandidateOf(s, offers[i]))
    && (forall i | Leads(s, offers, i) :: CandidateOf(s, offers[i]) in cs)
  }

  predicate Tried(cs: Candidates, width: int, height: int) {
    exists c :: c in cs && c.width == width && c.height == height
  }

  lemma {:induction false} FirstOfRaster(s: Search, offers: Offers, i: nat)
    requires i < |offers| && s.Fits(offers[i].width, offers[i].height)
    ensures exists j :: Leads(s, offers, j) && offers[j].width == offers[i].width && offers[j].height == offers[i].height
  {
    if j :| 0 <= j < i && offers[j].width == offers[i].width && offers[j].height == offers[i].height {
      FirstOfRaster(s, offers, j);
    } else {
      assert Leads(s, offers, i);
    }
  }

  lemma LeadsMore(s: Search, offers: Offers, o: Offer, i: int)
    ensures i < |offers| ==> (Leads(s, offers + [o], i) <==> Leads(s, offers, i))
  {
    hide Search.Fits;
    var all := offers + [o];
    assert forall j | 0 <= j < |offers| :: all[j] == offers[j];
    assert 0 <= i < |offers| ==> (IsFirst(all, i) <==> IsFirst(offers, i));
  }

  lemma TriedIff(s: Search, offers: Offers, cs: Candidates, o: Offer)
    requires Collected(s, offers, cs) && s.Fits(o.width, o.height)
    ensures Tried(cs, o.width, o.height) <==> !Leads(s, offers + [o], |offers|)
  {
    hide Search.Fits;
    var all := offers + [o];
    if Tried(cs, o.width, o.height) {
      var c :| c in cs && c.width == o.width && c.height == o.height;
      var i :| Leads(s, offers, i) && c == CandidateOf(s, offers[i]);
      assert all[i].width == all[|offers|].width;
    }
    if !Leads(s, all, |offers|) {
      var j :| 0 <= j < |offers| && all[j].width == o.width && all[j].height == o.height;
      FirstOfRaster(s, offers, j);
      var i :| Leads(s, offers, i) && offers[i].width == o.width && offers[i].height == o.height;
      assert CandidateOf(s, offers[i]) in cs;
    }
  }

  /** `add` */
  method Try(s: Search, ghost offers: Offers, cs: Candidates, o: Offer) returns (r: Candidates)
    requires Collected(s, offers, cs)
    ensures Collected(s, offers + [o], r)
  {
    r := cs;
    if s.Fits(o.width, o.height) && !Tried(cs, o.width, o.height) {
      r := cs + [CandidateOf(s, o)];
    }
    Added(s, offers, cs, o, r);
  }

  lemma Added(s: Search, offers: Offers, cs: Candidates, o: Offer, r: Candidates)
    requires Collected(s, offers, cs)
    requires r == if s.Fits(o.width, o.height) && !Tried(cs, o.width, o.height) then cs + [CandidateOf(s, o)] else cs
    ensures Collected(s, offers + [o], r)
  {
    hide Search.Fits;
    hide CandidateOf;
    hide Tried;
    hide IsFirst;
    var all, n := offers + [o], |offers|;
    if s.Fits(o.width, o.height) {
      TriedIff(s, offers, cs, o);
    }
    assert Leads(s, all, n) ==> r == cs + [CandidateOf(s, o)];
    assert !Leads(s, all, n) ==> r == cs;
    hide Leads;
    forall c | c in r ensures exists i :: Leads(s, all, i) && c == CandidateOf(s, all[i]) {
      if c in cs {
        var i :| Leads(s, offers, i) && c == CandidateOf(s, offers[i]);
        EarlierLeads(s, offers, o, i);
      } else {
        assert Leads(s, all, n) && all[n] == o;
      }
    }
    forall i | Leads(s, all, i) ensures CandidateOf(s, all[i]) in r {
      LeadsMore(s, offers, o, i);
    }
  }

  lemma EarlierLeads(s: Search, offers: Offers, o: Offer, i: int)
    requires Leads(s, offers, i)
    ensures Leads(s, offers + [o], i) && (offers + [o])[i] == offers[i]
  {
    LeadsMore(s, offers, o, i);
  }

  function OfferIf(ok: bool, o: Offer): Offers {
    if ok then [o] else []
  }

  method TryIf(ok: bool, s: Search, ghost offers: Offers, cs: Candidates, o: Offer) returns (r: Candidates)
    requires Collected(s, offers, cs)
    ensures Collected(s, offers + OfferIf(ok, o), r)
  {
    r := cs;
    if ok {
      r := Try(s, offers, cs, o);
    } else {
      assert offers + [] == offers;
    }
  }

  /** The raster of the payload's pixels with a given height, if there is one. */
  function ByHeight(s: Search, height: int, priority: int): Offers
    requires height > 0
  {
    OfferIf(s.pixels % height == 0, Offer(s.pixels / height, height, priority))
  }

  function ByWidth(s: Search, width: int, priority: int): Offers
    requires width > 0
  {
    OfferIf(s.pixels % width == 0, Offer(width, s.pixels / width, priority))
  }

  method TryHeight(s: Search, ghost offers: Offers, cs: Candidates, height: int, priority: int) returns (r: Candidates)
    requires Collected(s, offers, cs) && height > 0
    ensures Collected(s, offers + ByHeight(s, height, priority), r)
  {
    hide Collected;
    r := TryIf(s.pixels % height == 0, s, offers, cs, Offer(s.pixels / height, height, priority));
  }

  method TryWidth(s: Search, ghost offers: Offers, cs: Candidates, width: int, priority: int) returns (r: Candidates)
    requires Collected(s, offers, cs) && width > 0
    ensures Collected(s, offers + ByWidth(s, width, priority), r)
  {
    hide Collected;
    r := TryIf(s.pixels % width == 0, s, offers, cs, Offer(width, s.pixels / width, priority));
  }

  /** Offers whose sides differ by at most two from those given. */
  function Around(width: int, height: int, priority: int): (r: Offers)
    ensures |r| == 25
  {
    seq(25, i requires 0 <= i < 25 => Offer(width + i / 5 - 2, height + i % 5 - 2, priority + Abs(i / 5 - 2) + Abs(i % 5 - 2)))
  }

  /** `add_neighborhood` */
  method TryAround(s: Search, ghost offers: Offers, cs: Candidates, width: int, height: int, priority: int) returns (r: Candidates)
    requires Collected(s, offers, cs)
    ensures Collected(s, offers + Around(width, height, priority), r)
  {
    hide Collected;
    r := cs;
    ghost var around := Around(width, height, priority);
    assert offers + around[..0] == offers;
    for dw := -2 to 3
      invariant Collected(s, offers + around[..5 * (dw + 2)], r)
    {
      for dh := -2 to 3
        invariant Collected(s, offers + around[..5 * (dw + 2) + dh + 2], r)
      {
        var o := Offer(width + dw, height + dh, priority + Abs(dw) + Abs(dh));
        ghost var i := 5 * (dw + 2) + dh + 2;
        assert around[i] == o;
        r := Try(s, offers + around[..i], r, o);
        assert offers + around[..i] + [o] == offers + around[..i + 1];
      }
    }
    assert around[..25] == around;
  }

  /** The format that a payload is said to have. */
  datatype Format = Format(width: int, height: int, rowBytes: int) {
    function Width(): int { AtLeastOne(width) }
    function Height(): int { AtLeastOne(height) }
    function Stride(): int { AtLeastOne(if rowBytes > 0 then rowBytes / 2 else Width()) }
  }

  /** The rasters tried for the visible size and its padding, in order. */
  function VisibleOffers(s: Search): Offers
    requires s.Proper()
  {
    var w, h := s.visW + s.padW, s.visH + s.padH;
    [Offer(w, h, 0)] + [Offer(s.visW, s.visH, 1)] + Around(w, h, 2) + Around(s.visW, s.visH, 4)
    + ByHeight(s, h, 2) + ByHeight(s, s.visH, 3) + ByWidth(s, w, 4) + ByWidth(s, s.visW, 5)
  }

  method FromVisible(s: Search) returns (cs: Candidates)
    requires s.Proper()
    ensures Collected(s, VisibleOffers(s), cs)
  {
    cs := [];
    assert Collected(s, [], cs);
    hide Collected;
    hide Around;
    hide ByHeight;
    hide ByWidth;
    var w, h := s.visW + s.padW, s.visH + s.padH;
    cs := Try(s, [], cs, Offer(w, h, 0));
    ghost var done := [Offer(w, h, 0)];
    assert [] + done == done;
    cs := Try(s, done, cs, Offer(s.visW, s.visH, 1));
    done := done + [Offer(s.visW, s.visH, 1)];
    cs := TryAround(s, done, cs, w, h, 2);
    done := done + Around(w, h, 2);
    cs := TryAround(s, done, cs, s.visW, s.visH, 4);
    done := done + Around(s.visW, s.visH, 4);
    cs := TryHeight(s, done, cs, h, 2);
    done := done + ByHeight(s, h, 2);
    cs := TryHeight(s, done, cs, s.visH, 3);
    done := done + ByHeight(s, s.visH, 3);
    cs := TryWidth(s, done, cs, w, 4);
    done := done + ByWidth(s, w, 4);
    cs := TryWidth(s, done, cs, s.visW, 5);
  }

  const ALIGNMENTS: seq<int> := [2, 4, 8, 16]

  function Aligned(x: int, alignment: int): int
    requires alignment > 0
  {
    (x + alignment - 1) / alignment * alignment
  }

  /** The rasters tried for rows of an aligned width. */
  function AlignedOffers(s: Search, f: Format, size: nat, width: int): Offers {
    OfferIf(width * s.visH * 2 == size, Offer(width, s.visH, 1))
    + OfferIf(width * f.Height() * 2 == size, Offer(width, f.Height(), 1))
    + OfferIf(width * s.visH * 4 == size, Offer(width, s.visH, 1))
    + OfferIf(width * f.Height() * 4 == size, Offer(width, f.Height(), 1))
  }

  function AllAligned(s: Search, f: Format, size: nat, n: nat): Offers
    requires n <= |ALIGNMENTS|
  {
    if n == 0 then [] else AllAligned(s, f, size, n - 1) + AlignedOffers(s, f, size, Aligned(s.visW, ALIGNMENTS[n - 1]))
  }

  /** The rasters tried with the sides of a format. */
  function SideOffers(s: Search, f: Format): Offers {
    var w, h, stride := f.Width(), f.Height(), f.Stride();
    [Offer(stride, h, 6)] + [Offer(w, h, 6)] + ByWidth(s, stride, 7) + ByWidth(s, w, 8) + ByHeight(s, h, 9)
  }

  /** The rasters tried for a format, after the others. */
  function FormatOffers(s: Search, f: Format, size: nat): Offers {
    SideOffers(s, f) + AllAligned(s, f, size, |ALIGNMENTS|)
  }

  method TryAligned(s: Search, ghost offers: Offers, before: Candidates, f: Format, size: nat, width: int) returns (cs: Candidates)
    requires Collected(s, offers, before)
    ensures Collected(s, offers + AlignedOffers(s, f, size, width), cs)
  {
    hide Collected;
    hide OfferIf;
    var h := f.Height();
    ghost var done := offers;
    cs := TryIf(width * s.visH * 2 == size, s, done, before, Offer(width, s.visH, 1));
    done := done + OfferIf(width * s.visH * 2 == size, Offer(width, s.visH, 1));
    cs := TryIf(width * h * 2 == size, s, done, cs, Offer(width, h, 1));
    done := done + OfferIf(width * h * 2 == size, Offer(width, h, 1));
    cs := TryIf(width * s.visH * 4 == size, s, done, cs, Offer(width, s.visH, 1));
    done := done + OfferIf(width * s.visH * 4 == size, Offer(width, s.visH, 1));
    cs := TryIf(width * h * 4 == size, s, done, cs, Offer(width, h, 1));
    done := done + OfferIf(width * h * 4 == size, Offer(width, h, 1));
    assert done == offers + AlignedOffers(s, f, size, width);
  }

  method FromSides(s: Search, ghost offers: Offers, before: Candidates, f: Format) returns (cs: Candidates)
    requires Collected(s, offers, before)
    ensures Collected(s, offers + SideOffers(s, f), cs)
  {
    hide Collected;
    hide ByHeight;
    hide ByWidth;
    FormatSides(f);
    hide Format.Width;
    hide Format.Height;
    hide Format.Stride;
    var w, h, stride := f.Width(), f.Height(), f.Stride();
    ghost var done := offers;
    cs := Try(s, done, before, Offer(stride, h, 6));
    done := done + [Offer(stride, h, 6)];
    cs := Try(s, done, cs, Offer(w, h, 6));
    done := done + [Offer(w, h, 6)];
    cs := TryWidth(s, done, cs, stride, 7);
    done := done + ByWidth(s, stride, 7);
    cs := TryWidth(s, done, cs, w, 8);
    done := done + ByWidth(s, w, 8);
    cs := TryHeight(s, done, cs, h, 9);
    done := done + ByHeight(s, h, 9);
    assert done == offers + SideOffers(s, f);
  }

  method FromFormat(s: Search, ghost offers: Offers, before: Candidates, f: Format, size: nat) returns (cs: Candidates)
    requires Collected(s, offers, before)
    ensures Collected(s, offers + FormatOffers(s, f, size), cs)
  {
    hide Collected;
    hide SideOffers;
    hide AlignedOffers;
    cs := FromSides(s, offers, before, f);
    ghost var done := offers + SideOffers(s, f);
    assert done + [] == done;
    for i := 0 to |ALIGNMENTS|
      invariant Collected(s, done + AllAligned(s, f, size, i), cs)
    {
      var width := Aligned(s.visW, ALIGNMENTS[i]);
      cs := TryAligned(s, done + AllAligned(s, f, size, i), cs, f, size, width);
      assert done + AllAligned(s, f, size, i) + AlignedOffers(s, f, size, width) == done + AllAligned(s, f, size, i + 1);
    }
    assert done + AllAligned(s, f, size, |ALIGNMENTS|) == offers + FormatOffers(s, f, size);
  }

  /** `min(candidates)` */
  method Smallest(cs: Candidates) returns (r: Candidate)
    requires cs != []
    ensures r in cs && forall c | c in cs :: !Before(c, r)
  {
    r := cs[0];
    for i := 1 to |cs|
      invariant r in cs && forall j | 0 <= j < i :: !Before(cs[j], r)
    {
      if Before(cs[i], r) {
        r := cs[i];
      }
    }
  }

  datatype Raster = Raster(width: int, height: int)

  const NONE := Raster(0, 0)

  function SearchFor(size: nat, width: int, height: int, hpad: int, vpad: int, evenWidth: bool): (s: Search)
    ensures s.Proper()
  {
    Search(size / 2, AtLeastOne(width), AtLeastOne(height), Positive(hpad), Positive(vpad), evenWidth)
  }

  function AllOffers(s: Search, f: Option<Format>, size: nat): Offers
    requires s.Proper()
  {
    VisibleOffers(s) + if f.Some? then FormatOffers(s, f.value, size) else []
  }

  /** The bytes of a payload that are left when it is cut to what its format expects. */
  function Trimmed(size: nat, f: Option<Format>): (r: Option<nat>)
    ensures r.Some? ==> f.Some?
  {
    if f.Some? && f.value.rowBytes > 0 then
      var expected: nat := f.value.rowBytes * f.value.Height();
      if expected < size <= expected + 256 then Some(expected) else None
    else None
  }

  /** Of the leading offers, the one that comes before all others. */
  ghost predicate IsChoice(s: Search, offers: Offers, r: Raster) {
    exists i :: Leads(s, offers, i) && r == Raster(offers[i].width, offers[i].height)
      && forall j | Leads(s, offers, j) :: !Before(CandidateOf(s, offers[j]), CandidateOf(s, offers[i]))
  }

  ghost predicate SomeFits(s: Search, offers: Offers) {
    exists i :: Leads(s, offers, i)
  }

  /** The raster of a payload: the best one offered; when none fits, that of the payload cut to its
      format, found without the format; or none. */
  ghost predicate IsRaster(size: nat, width: int, height: int, hpad: int, vpad: int, f: Option<Format>, evenWidth: bool, r: Raster)
    decreases if f.Some? then 1 else 0
  {
    var s := SearchFor(size, width, height, hpad, vpad, evenWidth);
    if SomeFits(s, AllOffers(s, f, size)) then IsChoice(s, AllOffers(s, f, size), r)
    else if Trimmed(size, f).Some? then IsRaster(Trimmed(size, f).value, width, height, hpad, vpad, None, evenWidth, r)
    else r == NONE
  }

  /** `_resolve_packed_geometry` */
  method ResolvePackedGeometry(size: nat, width: int, height: int, hpad: int, vpad: int, f: Option<Format>, evenWidth: bool)
    returns (r: Raster)
    ensures IsRaster(size, width, height, hpad, vpad, f, evenWidth, r)
    decreases if f.Some? then 1 else 0
  {
    hide IsChoice;
    hide AllOffers;
    hide SomeFits;
    hide Trimmed;
    var s := SearchFor(size, width, height, hpad, vpad, evenWidth);
    if s.pixels == 0 {
      NothingFits(s, AllOffers(s, f, size));
      NothingTrimmed(size, f);
      return NONE;
    }
    hide SearchFor;
    var cs := FromVisible(s);
    if f.Some? {
      cs := FromFormat(s, VisibleOffers(s), cs, f.value, size);
    }
    OffersOf(s, f, size);
    assert Collected(s, AllOffers(s, f, size), cs);
    hide Collected;
    NoCandidates(s, AllOffers(s, f, size), cs);
    if cs == [] {
      var trimmed := Trimmed(size, f);
      if trimmed.Some? {
        r := ResolvePackedGeometry(trimmed.value, width, height, hpad, vpad, None, evenWidth);
        return;
      }
      return NONE;
    }
    var best := Smallest(cs);
    r := Raster(best.width, best.height);
    Chosen(s, AllOffers(s, f, size), cs, best);
  }

  lemma OffersOf(s: Search, f: Option<Format>, size: nat)
    requires s.Proper()
    ensures f.Some? ==> AllOffers(s, f, size) == VisibleOffers(s) + FormatOffers(s, f.value, size)
    ensures f.None? ==> AllOffers(s, f, size) == VisibleOffers(s)
  {
    assert VisibleOffers(s) + [] == VisibleOffers(s);
  }

  lemma NoCandidates(s: Search, offers: Offers, cs: Candidates)
    requires Collected(s, offers, cs)
    ensures SomeFits(s, offers) <==> cs != []
  {
    hide Leads;
    hide CandidateOf;
    if cs != [] {
      assert cs[0] in cs;
    }
  }

  lemma Chosen(s: Search, offers: Offers, cs: Candidates, best: Candidate)
    requires Collected(s, offers, cs) && best in cs && forall c | c in cs :: !Before(c, best)
    ensures IsChoice(s, offers, Raster(best.width, best.height))
  {
    hide Leads;
    hide Before;
    var i :| Leads(s, offers, i) && best == CandidateOf(s, offers[i]);
  }

  lemma NothingFits(s: Search, offers: Offers)
    requires s.pixels == 0
    ensures !SomeFits(s, offers)
  {
    hide IsFirst;
    hide Search.Fits;
    forall i: int ensures !Leads(s, offers, i) {
      if 0 <= i < |offers| {
        FitsSome(s, offers[i].width, offers[i].height);
      }
    }
  }

  lemma FitsSome(s: Search, w: int, h: int)
    ensures s.Fits(w, h) ==> s.pixels > 0
  {
    if w > 0 && h > 0 {
      assert w * h > 0;
    }
  }

  lemma NothingTrimmed(size: nat, f: Option<Format>)
    requires size / 2 == 0
    ensures Trimmed(size, f).None?
  {
    if f.Some? && f.value.rowBytes > 0 {
      assert f.value.rowBytes * f.value.Height() >= 1;
    }
  }

  /** A raster that is tried: within two pixels of the visible or the padded size, or with one side equal
      to a side of those or of the format, or as wide as the format's rows. */
  predicate Near(s: Search, f: Option<Format>, w: int, h: int) {
    || (Abs(w - s.visW) <= 2 && Abs(h - s.visH) <= 2)
    || (Abs(w - s.visW - s.padW) <= 2 && Abs(h - s.visH - s.padH) <= 2)
    || w in {s.visW, s.visW + s.padW} || h in {s.visH, s.visH + s.padH}
    || (f.Some? && (w in {f.value.Width(), f.value.Stride()} || h == f.value.Height()))
  }

  ghost predicate NearFits(s: Search, f: Option<Format>) {
    exists w, h :: s.Fits(w, h) && Near(s, f, w, h)
  }

  predicate Has(offers: Offers, w: int, h: int) {
    exists o :: o in offers && o.width == w && o.height == h
  }

  lemma AroundIff(width: int, height: int, priority: int, w: int, h: int)
    ensures Has(Around(width, height, priority), w, h) <==> Abs(w - width) <= 2 && Abs(h - height) <= 2
  {
    var around := Around(width, height, priority);
    if Abs(w - width) <= 2 && Abs(h - height) <= 2 {
      var i := 5 * (w - width + 2) + h - height + 2;
      assert i / 5 == w - width + 2 && i % 5 == h - height + 2;
      assert around[i] in around;
    }
  }

  lemma HasConcat(a: Offers, b: Offers, w: int, h: int)
    ensures Has(a + b, w, h) <==> Has(a, w, h) || Has(b, w, h)
  {
    assert forall o :: o in a + b <==> o in a || o in b;
  }

  lemma HasIf(ok: bool, o: Offer, w: int, h: int)
    ensures Has(OfferIf(ok, o), w, h) <==> ok && o.width == w && o.height == h
  {
    assert o in [o];
  }

  lemma Divides(w: int, h: int, p: nat)
    requires w > 0 && h > 0 && w * h == p
    ensures p % w == 0 && p / w == h && p % h == 0 && p / h == w
  {
    Quotient(p, h, w, 0);
    Quotient(p, w, h, 0);
  }

  lemma Quotient(p: int, d: int, q: int, r: int)
    requires d > 0 && 0 <= r < d && p == q * d + r
    ensures p / d == q && p % d == r
  {
    var x, y := p / d, p % d;
    assert p == x * d + y;
    assert (x - q) * d == r - y;
    if x > q {
      LeastMultiple(x - q, d);
    } else if x < q {
      LeastMultiple(q - x, d);
    }
  }

  lemma LeastMultiple(k: int, d: int)
    requires k >= 1 && d > 0
    ensures k * d >= d
  {
  }

  lemma HasByHeight(s: Search, height: int, priority: int, w: int, h: int)
    requires height > 0 && s.Fits(w, h)
    ensures Has(ByHeight(s, height, priority), w, h) <==> h == height
  {
    Divides(w, h, s.pixels);
    HasIf(s.pixels % height == 0, Offer(s.pixels / height, height, priority), w, h);
  }

  lemma HasByWidth(s: Search, width: int, priority: int, w: int, h: int)
    requires width > 0 && s.Fits(w, h)
    ensures Has(ByWidth(s, width, priority), w, h) <==> w == width
  {
    Divides(w, h, s.pixels);
    HasIf(s.pixels % width == 0, Offer(width, s.pixels / width, priority), w, h);
  }

  /** Of the rasters that fit, those tried for the visible size are the near ones. */
  lemma VisibleHas(s: Search, w: int, h: int)
    requires s.Proper() && s.Fits(w, h)
    ensures Has(VisibleOffers(s), w, h) <==> Near(s, None, w, h)
  {
    hide Has;
    hide Around;
    hide ByHeight;
    hide ByWidth;
    var pw, ph := s.visW + s.padW, s.visH + s.padH;
    var o1, o2 := OfferIf(true, Offer(pw, ph, 0)), OfferIf(true, Offer(s.visW, s.visH, 1));
    HasIf(true, Offer(pw, ph, 0), w, h);
    HasIf(true, Offer(s.visW, s.visH, 1), w, h);
    SingleOffer(Offer(pw, ph, 0));
    SingleOffer(Offer(s.visW, s.visH, 1));
    hide OfferIf;
    AroundIff(pw, ph, 2, w, h);
    AroundIff(s.visW, s.visH, 4, w, h);
    HasByHeight(s, ph, 2, w, h);
    HasByHeight(s, s.visH, 3, w, h);
    HasByWidth(s, pw, 4, w, h);
    HasByWidth(s, s.visW, 5, w, h);
    HasConcat(o1, o2, w, h);
    HasConcat(o1 + o2, Around(pw, ph, 2), w, h);
    HasConcat(o1 + o2 + Around(pw, ph, 2), Around(s.visW, s.visH, 4), w, h);
    var all, a, b, c := o1 + o2 + Around(pw, ph, 2) + Around(s.visW, s.visH, 4), ByHeight(s, ph, 2), ByHeight(s, s.visH, 3), ByWidth(s, pw, 4);
    HasConcat(all, a, w, h);
    HasConcat(all + a, b, w, h);
    HasConcat(all + a + b, c, w, h);
    HasConcat(all + a + b + c, ByWidth(s, s.visW, 5), w, h);
  }

  lemma SingleOffer(o: Offer)
    ensures OfferIf(true, o) == [o]
  {
  }

  lemma NoneHas(w: int, h: int)
    ensures !Has([], w, h)
  {
  }

  lemma AlignedOneHas(s: Search, f: Format, size: nat, width: int, w: int, h: int)
    ensures Has(AlignedOffers(s, f, size, width), w, h) ==> h in {s.visH, f.Height()}
  {
    hide Format.Height;
  }

  lemma {:induction false} AlignedHas(s: Search, f: Format, size: nat, n: nat, w: int, h: int)
    requires n <= |ALIGNMENTS|
    ensures Has(AllAligned(s, f, size, n), w, h) ==> h in {s.visH, f.Height()}
  {
    hide Has;
    hide AlignedOffers;
    hide Format.Height;
    NoneHas(w, h);
    if n > 0 {
      AlignedOneHas(s, f, size, Aligned(s.visW, ALIGNMENTS[n - 1]), w, h);
      AlignedHas(s, f, size, n - 1, w, h);
      HasConcat(AllAligned(s, f, size, n - 1), AlignedOffers(s, f, size, Aligned(s.visW, ALIGNMENTS[n - 1])), w, h);
    }
  }

  lemma FormatHas(s: Search, f: Format, size: nat, w: int, h: int)
    requires s.Fits(w, h)
    ensures Has(FormatOffers(s, f, size), w, h) ==> w in {f.Width(), f.Stride()} || h in {s.visH, f.Height()}
    ensures w in {f.Width(), f.Stride()} || h == f.Height() ==> Has(FormatOffers(s, f, size), w, h)
  {
    hide Has;
    hide ByHeight;
    hide ByWidth;
    hide AllAligned;
    hide Format.Width;
    hide Format.Height;
    hide Format.Stride;
    FormatSides(f);
    var fw, fh, stride := f.Width(), f.Height(), f.Stride();
    var o1, o2 := OfferIf(true, Offer(stride, fh, 6)), OfferIf(true, Offer(fw, fh, 6));
    HasIf(true, Offer(stride, fh, 6), w, h);
    HasIf(true, Offer(fw, fh, 6), w, h);
    SingleOffer(Offer(stride, fh, 6));
    SingleOffer(Offer(fw, fh, 6));
    HasByWidth(s, stride, 7, w, h);
    HasByWidth(s, fw, 8, w, h);
    HasByHeight(s, fh, 9, w, h);
    AlignedHas(s, f, size, |ALIGNMENTS|, w, h);
    var a, b, c := ByWidth(s, stride, 7), ByWidth(s, fw, 8), ByHeight(s, fh, 9);
    HasConcat(o1, o2, w, h);
    HasConcat(o1 + o2, a, w, h);
    HasConcat(o1 + o2 + a, b, w, h);
    HasConcat(o1 + o2 + a + b, c, w, h);
    HasConcat(o1 + o2 + a + b + c, AllAligned(s, f, size, |ALIGNMENTS|), w, h);
  }

  lemma FormatSides(f: Format)
    ensures f.Width() > 0 && f.Height() > 0 && f.Stride() > 0
    ensures f.rowBytes > 1 ==> 2 * f.Stride() <= f.rowBytes <= 2 * f.Stride() + 1
    ensures f.rowBytes <= 0 ==> f.Stride() == f.Width()
  {
  }

  /** A payload is cut to what its format expects when it has at most 256 bytes more. */
  lemma TrimmedIff(size: nat, f: Format, n: nat)
    ensures Trimmed(size, Some(f)) == Some(n)
            <==> f.rowBytes > 0 && n == f.rowBytes * (if f.height < 1 then 1 else f.height) && 1 <= size - n <= 256
  {
  }

  lemma AllHas(s: Search, f: Option<Format>, size: nat, w: int, h: int)
    requires s.Proper() && s.Fits(w, h)
    ensures Has(AllOffers(s, f, size), w, h) <==> Near(s, f, w, h)
  {
    hide Has;
    hide VisibleOffers;
    hide FormatOffers;
    hide Search.Fits;
    OffersOf(s, f, size);
    VisibleHas(s, w, h);
    if f.Some? {
      FormatHas(s, f.value, size, w, h);
      HasConcat(VisibleOffers(s), FormatOffers(s, f.value, size), w, h);
    }
  }

  /** An offer fits exactly when there is a raster near enough with the payload's pixels. */
  lemma SomeFitsIff(s: Search, f: Option<Format>, size: nat)
    requires s.Proper()
    ensures SomeFits(s, AllOffers(s, f, size)) <==> NearFits(s, f)
  {
    hide Search.Fits;
    hide IsFirst;
    hide AllOffers;
    hide Near;
    hide Search.Proper;
    var offers := AllOffers(s, f, size);
    if SomeFits(s, offers) {
      var i: int :| Leads(s, offers, i);
      assert offers[i] in offers;
      AllHas(s, f, size, offers[i].width, offers[i].height);
    }
    if NearFits(s, f) {
      var w, h :| s.Fits(w, h) && Near(s, f, w, h);
      AllHas(s, f, size, w, h);
      var o :| o in offers && o.width == w && o.height == h;
      var i: int :| 0 <= i < |offers| && offers[i] == o;
      FirstOfRaster(s, offers, i);
    }
  }

  predicate Later(offers: Offers) {
    forall o | o in offers :: o.priority > 0
  }

  lemma {:induction false} AlignedLater(s: Search, f: Format, size: nat, n: nat)
    requires n <= |ALIGNMENTS|
    ensures Later(AllAligned(s, f, size, n))
  {
    if n > 0 {
      AlignedLater(s, f, size, n - 1);
    }
  }

  /** The stored raster is offered first, and only it with the best priority. */
  lemma FirstOffer(s: Search, f: Option<Format>, size: nat)
    requires s.Proper()
    ensures |AllOffers(s, f, size)| > 0 && AllOffers(s, f, size)[0] == Offer(s.visW + s.padW, s.visH + s.padH, 0)
    ensures forall i | 0 < i < |AllOffers(s, f, size)| :: AllOffers(s, f, size)[i].priority > 0
  {
    var more: Offers := [];
    if f.Some? {
      more := FormatOffers(s, f.value, size);
      FormatLater(s, f.value, size);
    }
    VisibleLater(s);
    OffersOf(s, f, size);
    hide AllOffers;
    hide VisibleOffers;
    hide FormatOffers;
    hide Later;
    var visible := VisibleOffers(s);
    LaterConcat(visible[1..], more);
    assert AllOffers(s, f, size) == visible + more;
    LaterAt(visible[1..] + more);
    forall i | 0 < i < |visible + more| ensures (visible + more)[i].priority > 0 {
      assert (visible + more)[i] == (visible[1..] + more)[i - 1];
    }
  }

  lemma LaterAt(offers: Offers)
    requires Later(offers)
    ensures forall i | 0 <= i < |offers| :: offers[i].priority > 0
  {
  }

  lemma LaterConcat(a: Offers, b: Offers)
    requires Later(a) && (b == [] || Later(b))
    ensures Later(a + b)
  {
  }

  lemma FormatLater(s: Search, f: Format, size: nat)
    ensures Later(FormatOffers(s, f, size))
  {
    hide AllAligned;
    AlignedLater(s, f, size, |ALIGNMENTS|);
  }

  /** Only the first has the best priority. */
  predicate FirstBest(o: Offer, offers: Offers) {
    offers != [] && offers[0] == o && Later(offers[1..])
  }

  lemma FirstBestConcat(o: Offer, a: Offers, b: Offers)
    requires FirstBest(o, a) && Later(b)
    ensures FirstBest(o, a + b)
  {
    assert (a + b)[1..] == a[1..] + b;
  }

  lemma VisibleLater(s: Search)
    requires s.Proper()
    ensures FirstBest(Offer(s.visW + s.padW, s.visH + s.padH, 0), VisibleOffers(s))
  {
    var w, h := s.visW + s.padW, s.visH + s.padH;
    var near, seen := Around(w, h, 2), Around(s.visW, s.visH, 4);
    assert Later(near) && Later(seen);
    hide Around;
    var a, b, c, d := ByHeight(s, h, 2), ByHeight(s, s.visH, 3), ByWidth(s, w, 4), ByWidth(s, s.visW, 5);
    assert Later([Offer(s.visW, s.visH, 1)]) && Later(a) && Later(b) && Later(c) && Later(d);
    hide ByHeight;
    hide ByWidth;
    var o := Offer(w, h, 0);
    assert [o][1..] == [] && FirstBest(o, [o]);
    hide Later;
    hide FirstBest;
    var all := [o] + [Offer(s.visW, s.visH, 1)];
    FirstBestConcat(o, [o], [Offer(s.visW, s.visH, 1)]);
    FirstBestConcat(o, all, near);
    FirstBestConcat(o, all + near, seen);
    FirstBestConcat(o, all + near + seen, a);
    FirstBestConcat(o, all + near + seen + a, b);
    FirstBestConcat(o, all + near + seen + a + b, c);
    FirstBestConcat(o, all + near + seen + a + b + c, d);
  }

  lemma PaddedNear(s: Search, f: Option<Format>)
    ensures s.Fits(s.visW + s.padW, s.visH + s.padH) ==> NearFits(s, f)
  {
    assert Near(s, f, s.visW + s.padW, s.visH + s.padH);
  }

  lemma ChoiceFits(s: Search, f: Option<Format>, size: nat, r: Raster)
    requires s.Proper() && IsChoice(s, AllOffers(s, f, size), r)
    ensures s.Fits(r.width, r.height) && Near(s, f, r.width, r.height)
    ensures s.Fits(s.visW + s.padW, s.visH + s.padH) ==> r == Raster(s.visW + s.padW, s.visH + s.padH)
  {
    hide Search.Fits;
    hide Near;
    hide AllOffers;
    hide CandidateOf;
    hide Before;
    hide Search.Proper;
    var offers := AllOffers(s, f, size);
    var i: int :| Leads(s, offers, i) && r == Raster(offers[i].width, offers[i].height)
                    && forall j | Leads(s, offers, j) :: !Before(CandidateOf(s, offers[j]), CandidateOf(s, offers[i]));
    assert offers[i] in offers;
    AllHas(s, f, size, r.width, r.height);
    FirstOffer(s, f, size);
    if s.Fits(s.visW + s.padW, s.visH + s.padH) {
      assert Leads(s, offers, 0);
      BestFirst(s, offers[0], offers[i]);
    }
  }

  lemma BestFirst(s: Search, a: Offer, b: Offer)
    ensures a.priority < b.priority ==> Before(CandidateOf(s, a), CandidateOf(s, b))
  {
  }

  /** What a payload resolves to: a raster near the visible size or the format with exactly its pixels,
      and an even width where one is required, if there is one; the raster that the visible size and the
      padding say wins whenever it is one. */
  lemma RasterIff(size: nat, width: int, height: int, hpad: int, vpad: int, f: Option<Format>, evenWidth: bool, r: Raster)
    requires IsRaster(size, width, height, hpad, vpad, f, evenWidth, r)
    ensures var s := SearchFor(size, width, height, hpad, vpad, evenWidth);
      && (NearFits(s, f) ==> s.Fits(r.width, r.height) && Near(s, f, r.width, r.height))
      && (s.Fits(s.visW + s.padW, s.visH + s.padH) ==> r == Raster(s.visW + s.padW, s.visH + s.padH))
      && (!NearFits(s, f) && Trimmed(size, f).None? ==> r == NONE)
      && (!NearFits(s, f) && Trimmed(size, f).Some? ==> IsRaster(Trimmed(size, f).value, width, height, hpad, vpad, None, evenWidth, r))
  {
    hide IsChoice;
    hide SomeFits;
    hide Trimmed;
    hide Near;
    hide Search.Fits;
    hide SearchFor;
    hide AllOffers;
    var s := SearchFor(size, width, height, hpad, vpad, evenWidth);
    SomeFitsIff(s, f, size);
    PaddedNear(s, f);
    if NearFits(s, f) {
      ChoiceFits(s, f, size, r);
    }
  }

  /** A colour of eight bits a channel. */
  datatype Rgb = Rgb(r: nat, g: nat, b: nat) {
    predicate Valid() {
      r < 256 && g < 256 && b < 256
    }
  }

  function Pack565(c: Rgb): nat {
    c.r / 8 * 2048 + c.g / 4 * 32 + c.b / 8
  }

  /** Each channel is widened by repeating its highest bits. */
  function Unpack565(u: nat): Rgb {
    var r, g, b := u / 2048 % 32, u / 32 % 64, u % 32;
    Rgb(r * 8 + r / 4, g * 4 + g / 16, b * 8 + b / 4)
  }

  function Pack555(c: Rgb): nat {
    c.r / 8 * 1024 + c.g / 8 * 32 + c.b / 8
  }

  function Unpack555(u: nat): Rgb {
    var r, g, b := u / 1024 % 32, u / 32 % 32, u % 32;
    Rgb(r * 8 + r / 4, g * 8 + g / 4, b * 8 + b / 4)
  }

  lemma Widen5(x: nat)
    requires x < 32
    ensures (x * 8 + x / 4) / 8 == x && x * 8 + x / 4 < 256
  {
  }

  lemma Widen6(x: nat)
    requires x < 64
    ensures (x * 4 + x / 16) / 4 == x && x * 4 + x / 16 < 256
  {
  }

  lemma Fields565(u: nat)
    requires u < 0x1_0000
    ensures u == u / 2048 % 32 * 2048 + u / 32 % 64 * 32 + u % 32
  {
    assert u / 2048 == u / 32 / 64;
  }

  lemma Fields555(u: nat)
    requires u < 0x8000
    ensures u == u / 1024 % 32 * 1024 + u / 32 % 32 * 32 + u % 32
  {
    assert u / 1024 == u / 32 / 32;
  }

  /** Every 565 pixel, and every 555 pixel without its unused bit, survives unpacking and packing. */
  lemma PixelSurvives(u: nat)
    requires u < 0x1_0000
    ensures Unpack565(u).Valid() && Pack565(Unpack565(u)) == u
    ensures u < 0x8000 ==> Unpack555(u).Valid() && Pack555(Unpack555(u)) == u
  {
    Fields565(u);
    Widen5(u / 2048 % 32);
    Widen6(u / 32 % 64);
    Widen5(u % 32);
    if u < 0x8000 {
      Fields555(u);
      Widen5(u / 1024 % 32);
      Widen5(u / 32 % 32);
    }
  }

  /** A channel of `n` bits repeats its highest bits in those that were not stored. */
  predicate Repeats(x: nat, n: nat) {
    if n == 6 then x % 4 == x / 64 else x % 8 == x / 32
  }

  lemma Repeats5(x: nat, field: nat)
    requires x < 256 && field < 32
    ensures x == field * 8 + field / 4 <==> x / 8 == field && Repeats(x, 5)
  {
  }

  lemma Repeats6(x: nat, field: nat)
    requires x < 256 && field < 64
    ensures x == field * 4 + field / 16 <==> x / 4 == field && Repeats(x, 6)
  {
  }

  lemma Joined(r: nat, g: nat, b: nat, u: nat)
    requires g < 64 && b < 32 && u == r * 2048 + g * 32 + b
    ensures u / 2048 == r && u / 32 % 64 == g && u % 32 == b
  {
    assert u / 32 == r * 64 + g;
  }

  lemma Joined5(r: nat, g: nat, b: nat, u: nat)
    requires g < 32 && b < 32 && u == r * 1024 + g * 32 + b
    ensures u / 1024 == r && u / 32 % 32 == g && u % 32 == b
  {
    assert u / 32 == r * 32 + g;
  }

  /** A pixel unpacks to the one colour that packs to it and whose missing bits repeat its highest. */
  lemma UnpackedIff(u: nat, c: Rgb)
    requires u < 0x1_0000 && c.Valid()
    ensures c == Unpack565(u) <==> Pack565(c) == u && Repeats(c.r, 5) && Repeats(c.g, 6) && Repeats(c.b, 5)
  {
    var r, g, b := u / 2048 % 32, u / 32 % 64, u % 32;
    Repeats5(c.r, r);
    Repeats6(c.g, g);
    Repeats5(c.b, b);
    hide Repeats;
    Fields565(u);
    var r2, g2, b2 := c.r / 8, c.g / 4, c.b / 8;
    Joined(r2, g2, b2, Pack565(c));
    assert Pack565(c) == u <==> r2 == r && g2 == g && b2 == b;
  }

  /** The same for a 555 pixel, whose unused bit is not set. */
  lemma Unpacked555Iff(u: nat, c: Rgb)
    requires u < 0x8000 && c.Valid()
    ensures c == Unpack555(u) <==> Pack555(c) == u && Repeats(c.r, 5) && Repeats(c.g, 5) && Repeats(c.b, 5)
  {
    var r, g, b := u / 1024 % 32, u / 32 % 32, u % 32;
    Repeats5(c.r, r);
    Repeats5(c.g, g);
    Repeats5(c.b, b);
    hide Repeats;
    Fields555(u);
    var r2, g2, b2 := c.r / 8, c.g / 8, c.b / 8;
    Joined5(r2, g2, b2, Pack555(c));
    assert Pack555(c) == u <==> r2 == r && g2 == g && b2 == b;
  }

  lemma PackedFits(c: Rgb)
    requires c.Valid()
    ensures Pack565(c) < 0x1_0000 && Pack555(c) < 0x8000
  {
  }

  /** An image whose stride is its width, row after row. */
  type Image = seq<Rgb>

  function PackImage(image: Image, pack: Rgb -> nat): seq<nat> {
    seq(|image|, i requires 0 <= i < |image| => pack(image[i]))
  }

  function UnpackImage(pixels: seq<nat>, unpack: nat -> Rgb): Image {
    seq(|pixels|, i requires 0 <= i < |pixels| => unpack(pixels[i]))
  }

  lemma PixelsSurvive(image: Image)
    requires forall i | 0 <= i < |image| :: image[i].Valid()
    ensures PackImage(UnpackImage(PackImage(image, Pack565), Unpack565), Pack565) == PackImage(image, Pack565)
    ensures PackImage(UnpackImage(PackImage(image, Pack555), Unpack555), Pack555) == PackImage(image, Pack555)
  {
    hide Pack565;
    hide Unpack565;
    hide Pack555;
    hide Unpack555;
    forall i | 0 <= i < |image|
      ensures Pack565(Unpack565(Pack565(image[i]))) == Pack565(image[i])
      ensures Pack555(Unpack555(Pack555(image[i]))) == Pack555(image[i])
    {
      PackedFits(image[i]);
      PixelSurvives(Pack565(image[i]));
      PixelSurvives(Pack555(image[i]));
    }
  }

  /** `astype("<u2")` or `astype(">u2")`, and `tobytes()` */
  function PixelBytes(pixels: seq<nat>, big: bool): (r: Bytes)
    ensures |r| == 2 * |pixels|
  {
    if pixels == [] then []
    else
      var low, high := pixels[0] % 256, pixels[0] / 256 % 256;
      (if big then [high, low] else [low, high]) + PixelBytes(pixels[1..], big)
  }

  /** `frombuffer` with the same type */
  function BytePixels(data: Bytes, big: bool): (r: seq<nat>)
    ensures |r| == |data| / 2
  {
    if |data| < 2 then []
    else
      var a: nat, b: nat := data[0], data[1];
      [if big then 256 * a + b else a + 256 * b] + BytePixels(data[2..], big)
  }

  lemma {:induction false} BytesSurvive(pixels: seq<nat>, big: bool)
    requires forall i | 0 <= i < |pixels| :: pixels[i] < 0x1_0000
    ensures BytePixels(PixelBytes(pixels, big), big) == pixels
  {
    if pixels != [] {
      BytesSurvive(pixels[1..], big);
      assert PixelBytes(pixels, big)[2..] == PixelBytes(pixels[1..], big);
      assert pixels[0] == pixels[0] % 256 + 256 * (pixels[0] / 256 % 256);
    }
  }

  /** Encoding an image, decoding it and encoding it again gives the same bytes, in either layout and
      either byte order. */
  lemma RepackSame(image: Image, big: bool)
    requires forall i | 0 <= i < |image| :: image[i].Valid()
    ensures var data := PixelBytes(PackImage(image, Pack565), big);
            PixelBytes(PackImage(UnpackImage(BytePixels(data, big), Unpack565), Pack565), big) == data
    ensures var data := PixelBytes(PackImage(image, Pack555), big);
            PixelBytes(PackImage(UnpackImage(BytePixels(data, big), Unpack555), Pack555), big) == data
  {
    hide Pack565;
    hide Unpack565;
    hide Pack555;
    hide Unpack555;
    hide PixelBytes;
    hide BytePixels;
    forall i | 0 <= i < |image| ensures Pack565(image[i]) < 0x1_0000 && Pack555(image[i]) < 0x8000 { PackedFits(image[i]); }
    PixelsSurvive(image);
    BytesSurvive(PackImage(image, Pack565), big);
    BytesSurvive(PackImage(image, Pack555), big);
  }
}
