/** `inject_a53_caption_events`: splitting an H.264 byte stream (ITU-T H.264, Annex B) at its start
    codes and inserting caption units before chosen frames. */
module NalInjection {
  import opened Outcomes
  import opened Bytes

  /** Where a start code is, and whether it has three or four bytes. */
  datatype StartCode = StartCode(offset: nat, size: nat) {
    function End(): nat {
      offset + size
    }
  }

  /** The size of the start code at `o`, or 0. */
  function MarkerAt(raw: Bytes, o: nat): (r: nat)
    requires o + 3 < |raw|
    ensures r in {0, 3, 4}
  {
    if raw[o] == 0 && raw[o + 1] == 0 && raw[o + 2] == 0 && raw[o + 3] == 1 then 4
    else if raw[o] == 0 && raw[o + 1] == 0 && raw[o + 2] == 1 then 3
    else 0
  }

  /** The start codes from `offset` on, none overlapping another. */
  function Codes(raw: Bytes, offset: nat): seq<StartCode>
    decreases |raw| - offset
  {
    if offset + 3 >= |raw| then []
    else
      var m := MarkerAt(raw, offset);
      if m > 0 then [StartCode(offset, m)] + Codes(raw, offset + m) else Codes(raw, offset + 1)
  }

  method FindStartCodes(raw: Bytes) returns (codes: seq<StartCode>)
    ensures codes == Codes(raw, 0)
  {
    codes := [];
    var offset := 0;
    while offset + 3 < |raw|
      invariant codes + Codes(raw, offset) == Codes(raw, 0)
      decreases |raw| - offset
    {
      var markerSize := MarkerAt(raw, offset);
      if markerSize > 0 {
        codes := codes + [StartCode(offset, markerSize)];
        offset := offset + markerSize;
      } else {
        offset := offset + 1;
      }
    }
  }

  /** A start code and what follows it up to the next. */
  datatype Unit = Unit(code: nat, body: Bytes)

  function Code(size: nat): Bytes {
    if size == 4 then [0, 0, 0, 1] else [0, 0, 1]
  }

  function Whole(u: Unit): Bytes {
    Code(u.code) + u.body
  }

  function Concat(units: seq<Unit>): Bytes {
    if units == [] then [] else Whole(units[0]) + Concat(units[1..])
  }

  /** Where the unit of the first of `codes` ends. */
  function FirstEnd(raw: Bytes, codes: seq<StartCode>): nat
    requires codes != []
  {
    if |codes| > 1 then codes[1].offset else |raw|
  }

  /** Each code starts after the one before ends, and has its unit in the data. */
  predicate Ordered(raw: Bytes, codes: seq<StartCode>) {
    codes == [] || (codes[0].End() <= FirstEnd(raw, codes) <= |raw| && Ordered(raw, codes[1..]))
  }

  /** The units that the codes divide the data into. */
  function Cut(raw: Bytes, codes: seq<StartCode>): (r: seq<Unit>)
    requires Ordered(raw, codes)
    ensures |r| == |codes|
  {
    if codes == [] then []
    else [Unit(codes[0].size, raw[codes[0].End()..FirstEnd(raw, codes)])] + Cut(raw, codes[1..])
  }

  /** No start code before the end of `body`, whatever follows the bytes in `next`. */
  predicate Quiet(body: Bytes, next: Bytes) {
    forall o | 0 <= o < |body| && o + 3 < |body + next| :: MarkerAt(body + next, o) == 0
  }

  /** The start code of the first unit, or nothing at the end of the data. */
  function NextCode(units: seq<Unit>): Bytes {
    if units == [] then [] else Code(units[0].code)
  }

  /** Units that a scan of their bytes tells apart: each ends where the next one's code starts, and
      a last one with a three-byte code is not empty. */
  predicate Delimited(units: seq<Unit>) {
    units == []
    || (units[0].code in {3, 4} && Quiet(units[0].body, NextCode(units[1..]))
        && (|units| == 1 && units[0].code == 3 ==> units[0].body != [])
        && Delimited(units[1..]))
  }

  /** Where units that follow one another from `offset` have their start codes. */
  function Starts(units: seq<Unit>, offset: nat): seq<StartCode> {
    if units == [] then [] else [StartCode(offset, units[0].code)] + Starts(units[1..], offset + |Whole(units[0])|)
  }

  /** Bytes without a start code are skipped. */
  lemma {:induction false} Skip(raw: Bytes, lo: nat, hi: nat)
    requires lo <= hi <= |raw| && forall o | lo <= o < hi && o + 3 < |raw| :: MarkerAt(raw, o) == 0
    ensures Codes(raw, lo) == Codes(raw, hi)
    decreases hi - lo
  {
    if lo < hi {
      Skip(raw, lo + 1, hi);
    }
  }

  /** The first code found is at or after the start, and nothing before it is one. */
  lemma {:induction false} FirstCode(raw: Bytes, offset: nat)
    ensures var codes := Codes(raw, offset);
      var first := if codes == [] then |raw| else codes[0].offset;
      && (forall o | offset <= o < first && o + 3 < |raw| :: MarkerAt(raw, o) == 0)
      && (codes != [] ==> offset <= first && first + 3 < |raw| && codes[0].size == MarkerAt(raw, first) > 0
                          && codes[1..] == Codes(raw, codes[0].End()))
    decreases |raw| - offset
  {
    hide MarkerAt;
    if offset + 3 < |raw| {
      if MarkerAt(raw, offset) == 0 {
        FirstCode(raw, offset + 1);
        assert Codes(raw, offset) == Codes(raw, offset + 1);
      } else {
        CodesHere(raw, offset);
      }
    }
  }

  lemma CodesHere(raw: Bytes, offset: nat)
    requires offset + 3 < |raw| && MarkerAt(raw, offset) > 0
    ensures var codes := Codes(raw, offset);
      && codes != [] && codes[0] == StartCode(offset, MarkerAt(raw, offset))
      && codes[1..] == Codes(raw, codes[0].End())
  {
    hide MarkerAt;
    assert ([StartCode(offset, MarkerAt(raw, offset))] + Codes(raw, offset + MarkerAt(raw, offset)))[1..]
           == Codes(raw, offset + MarkerAt(raw, offset));
  }

  lemma {:induction false} CodesOrdered(raw: Bytes, offset: nat)
    ensures Ordered(raw, Codes(raw, offset))
    decreases |raw| - offset
  {
    hide Codes;
    var codes := Codes(raw, offset);
    FirstCode(raw, offset);
    if codes != [] {
      FirstCode(raw, codes[0].End());
      CodesOrdered(raw, codes[0].End());
    }
  }

  /** The units of a byte stream. */
  function Units(raw: Bytes): seq<Unit> {
    CodesOrdered(raw, 0);
    Cut(raw, Codes(raw, 0))
  }

  /** A window of the data that starts inside `body + next` sees only that. */
  lemma MarkerWithin(raw: Bytes, at: nat, s: Bytes, o: nat)
    requires At(raw, at, s) && o + 3 < |s|
    ensures at + o + 3 < |raw| && MarkerAt(raw, at + o) == MarkerAt(s, o)
  {
    AtIndex(raw, at, s, o);
    AtIndex(raw, at, s, o + 1);
    AtIndex(raw, at, s, o + 2);
    AtIndex(raw, at, s, o + 3);
  }

  lemma CutStep(raw: Bytes, c: StartCode, rest: seq<StartCode>, end: nat)
    requires Ordered(raw, rest) && c.End() <= end <= |raw| && end == if rest == [] then |raw| else rest[0].offset
    ensures Ordered(raw, [c] + rest) && Cut(raw, [c] + rest) == [Unit(c.size, raw[c.End()..end])] + Cut(raw, rest)
  {
    var codes := [c] + rest;
    assert codes[1..] == rest;
  }

  lemma DelimitedStep(u: Unit, units: seq<Unit>)
    requires u.code in {3, 4} && Quiet(u.body, NextCode(units)) && Delimited(units)
    requires units == [] && u.code == 3 ==> u.body != []
    ensures Delimited([u] + units) && Concat([u] + units) == Whole(u) + Concat(units)
  {
    hide Quiet;
    assert ([u] + units)[1..] == units;
  }

  /** The data after a code, up to where the next code starts, has no start code in it. */
  lemma {:induction false} CutDelimited(raw: Bytes, offset: nat)
    requires offset <= |raw|
    ensures Ordered(raw, Codes(raw, offset))
    ensures var codes := Codes(raw, offset);
      && Delimited(Cut(raw, codes))
      && (codes != [] ==> codes[0].offset <= |raw| && raw[codes[0].offset..] == Concat(Cut(raw, codes)))
    decreases |raw| - offset
  {
    hide Codes;
    hide Quiet;
    hide Whole;
    hide MarkerAt;
    CodesOrdered(raw, offset);
    FirstCode(raw, offset);
    var codes := Codes(raw, offset);
    if codes != [] {
      var c, rest := codes[0], codes[1..];
      assert codes == [c] + rest;
      CutDelimited(raw, c.End());
      FirstCode(raw, c.End());
      var end := if rest == [] then |raw| else rest[0].offset;
      CutStep(raw, c, rest, end);
      var u := Unit(c.size, raw[c.End()..end]);
      BodyQuiet(raw, c, rest, end);
      assert rest != [] ==> Cut(raw, rest)[0].code == rest[0].size;
      DelimitedStep(u, Cut(raw, rest));
      UnitWhole(raw, c, end);
    }
  }

  lemma UnitWhole(raw: Bytes, c: StartCode, end: nat)
    requires c.offset + 3 < |raw| && c.size == MarkerAt(raw, c.offset) > 0 && c.End() <= end <= |raw|
    ensures raw[c.offset..] == Whole(Unit(c.size, raw[c.End()..end])) + raw[end..]
  {
    CodeAt(raw, c.offset);
    assert raw[c.offset..] == raw[c.offset..c.End()] + raw[c.End()..end] + raw[end..];
  }

  lemma SliceJoin(raw: Bytes, i: nat, j: nat, k: nat)
    requires i <= j <= k <= |raw|
    ensures raw[i..k] == raw[i..j] + raw[j..k]
  {
  }

  lemma BodyQuiet(raw: Bytes, c: StartCode, rest: seq<StartCode>, end: nat)
    requires c.End() <= end <= |raw| && end == if rest == [] then |raw| else rest[0].offset
    requires rest != [] ==> end + 3 < |raw| && rest[0].size == MarkerAt(raw, end) > 0
    requires forall o | c.End() <= o < end && o + 3 < |raw| :: MarkerAt(raw, o) == 0
    ensures Quiet(raw[c.End()..end], if rest == [] then [] else Code(rest[0].size))
  {
    var body, next := raw[c.End()..end], if rest == [] then [] else Code(rest[0].size);
    if rest != [] {
      CodeAt(raw, end);
      SliceJoin(raw, c.End(), end, end + rest[0].size);
    } else {
      assert body + next == body;
    }
    QuietIn(raw, c.End(), body, next);
  }

  lemma CodeAt(raw: Bytes, o: nat)
    requires o + 3 < |raw| && MarkerAt(raw, o) > 0
    ensures raw[o..o + MarkerAt(raw, o)] == Code(MarkerAt(raw, o))
  {
  }

  lemma QuietIn(raw: Bytes, at: nat, body: Bytes, next: Bytes)
    requires At(raw, at, body + next)
    requires forall o | at <= o < at + |body| && o + 3 < |raw| :: MarkerAt(raw, o) == 0
    ensures Quiet(body, next)
  {
    forall o | 0 <= o < |body| && o + 3 < |body + next| ensures MarkerAt(body + next, o) == 0 {
      MarkerWithin(raw, at, body + next, o);
    }
  }

  lemma UnitSplit(raw: Bytes, offset: nat, u: Unit, tail: Bytes)
    requires offset <= |raw| && raw[offset..] == Whole(u) + tail && u.code in {3, 4}
    ensures |Whole(u)| == u.code + |u.body| && offset + |Whole(u)| <= |raw|
    ensures raw[offset + u.code..offset + |Whole(u)|] == u.body
    ensures raw[offset + u.code..] == u.body + tail
    ensures raw[offset + |Whole(u)|..] == tail
    ensures |u.body + tail| > 0 ==> offset + 3 < |raw| && MarkerAt(raw, offset) == u.code
    ensures u.code == 4 ==> offset + 3 < |raw| && MarkerAt(raw, offset) == u.code
  {
    var code, rest := Code(u.code), u.body + tail;
    assert raw[offset..] == code + rest;
    assert raw[offset + u.code..] == raw[offset..][u.code..] == rest;
    assert raw[offset + |Whole(u)|..] == raw[offset + u.code..][|u.body|..] == tail;
    assert raw[offset + u.code..offset + |Whole(u)|] == raw[offset + u.code..][..|u.body|] == u.body;
    assert forall k | 0 <= k < u.code :: raw[offset + k] == raw[offset..][k] == code[k];
  }

  /** Scanning delimited units finds exactly their start codes. */
  lemma {:induction false} StartsFound(raw: Bytes, offset: nat, units: seq<Unit>)
    requires offset <= |raw| && raw[offset..] == Concat(units) && Delimited(units)
    ensures Codes(raw, offset) == Starts(units, offset)
    decreases |units|
  {
    hide Quiet;
    hide MarkerAt;
    hide Whole;
    if units == [] {
      assert Codes(raw, offset) == [];
    } else {
      hide Codes;
      var u, rest := units[0], units[1..];
      UnitSplit(raw, offset, u, Concat(rest));
      UnitScanned(raw, offset, u, rest);
      StartsFound(raw, offset + |Whole(u)|, rest);
    }
  }

  lemma UnitScanned(raw: Bytes, offset: nat, u: Unit, rest: seq<Unit>)
    requires offset <= |raw| && raw[offset..] == Whole(u) + Concat(rest)
    requires u.code in {3, 4} && Quiet(u.body, NextCode(rest)) && (rest == [] && u.code == 3 ==> u.body != [])
    ensures offset + |Whole(u)| <= |raw|
    ensures Codes(raw, offset) == [StartCode(offset, u.code)] + Codes(raw, offset + |Whole(u)|)
  {
    hide Quiet;
    hide MarkerAt;
    hide Whole;
    hide Codes;
    UnitSplit(raw, offset, u, Concat(rest));
    NextPrefix(rest);
    assert rest == [] ==> Concat(rest) == [];
    CodesStep(raw, offset);
    BodySkipped(raw, offset + u.code, u.body, NextCode(rest), Concat(rest));
  }

  lemma CodesStep(raw: Bytes, offset: nat)
    requires offset + 3 < |raw| && MarkerAt(raw, offset) > 0
    ensures Codes(raw, offset) == [StartCode(offset, MarkerAt(raw, offset))] + Codes(raw, offset + MarkerAt(raw, offset))
  {
  }

  /** A scan that has passed a start code goes on to the end of its unit. */
  lemma BodySkipped(raw: Bytes, start: nat, body: Bytes, next: Bytes, tail: Bytes)
    requires start <= |raw| && raw[start..] == body + tail && next <= tail && Quiet(body, next)
    requires |next| >= 3 || tail == []
    ensures Codes(raw, start) == Codes(raw, start + |body|)
  {
    hide Quiet;
    hide Codes;
    assert body + next <= body + tail;
    PrefixAt(raw, start, body + next, body + tail);
    QuietOut(raw, start, body, next);
    Skip(raw, start, start + |body|);
  }

  lemma PrefixAt(raw: Bytes, at: nat, s: Bytes, t: Bytes)
    requires at <= |raw| && raw[at..] == t && s <= t
    ensures At(raw, at, s)
  {
    assert raw[at..at + |s|] == t[..|s|];
  }

  lemma NextPrefix(units: seq<Unit>)
    ensures NextCode(units) <= Concat(units)
    ensures units != [] ==> |NextCode(units)| >= 3
  {
  }

  /** Nor is there a start code before the end of the body where more data follows. */
  lemma QuietOut(raw: Bytes, at: nat, body: Bytes, next: Bytes)
    requires At(raw, at, body + next) && Quiet(body, next) && (|next| >= 3 || at + |body + next| == |raw|)
    ensures forall o | at <= o < at + |body| && o + 3 < |raw| :: MarkerAt(raw, o) == 0
  {
    forall o | at <= o < at + |body| && o + 3 < |raw| ensures MarkerAt(raw, o) == 0 {
      MarkerWithin(raw, at, body + next, o - at);
    }
  }

  lemma UnitEnds(raw: Bytes, offset: nat, units: seq<Unit>)
    requires offset <= |raw| && raw[offset..] == Concat(units) && Delimited(units) && units != []
    ensures var u, after := units[0], offset + |Whole(units[0])|;
      && |Whole(u)| == u.code + |u.body| && after <= |raw|
      && raw[offset + u.code..after] == u.body && raw[after..] == Concat(units[1..])
      && (units[1..] == [] ==> after == |raw|)
  {
    hide Quiet;
    hide Whole;
    UnitSplit(raw, offset, units[0], Concat(units[1..]));
  }

  /** The start codes of units that follow one another divide the data into those units. */
  lemma {:induction false} StartsCut(raw: Bytes, offset: nat, units: seq<Unit>)
    requires offset <= |raw| && raw[offset..] == Concat(units) && Delimited(units)
    ensures Ordered(raw, Starts(units, offset)) && Cut(raw, Starts(units, offset)) == units
    decreases |units|
  {
    hide Quiet;
    hide Whole;
    hide Concat;
    if units != [] {
      hide Cut;
      hide Ordered;
      var u, rest, after := units[0], units[1..], offset + |Whole(units[0])|;
      UnitEnds(raw, offset, units);
      StartsCut(raw, after, rest);
      CutStep(raw, StartCode(offset, u.code), Starts(rest, after), after);
      assert units == [u] + rest;
    }
  }

  /** Splitting the bytes of delimited units gives the units back. */
  lemma UnitsOfConcat(units: seq<Unit>)
    requires Delimited(units)
    ensures Units(Concat(units)) == units
  {
    hide Codes;
    var raw := Concat(units);
    assert raw[0..] == raw;
    StartsFound(raw, 0, units);
    StartsCut(raw, 0, units);
  }

  /** The units of any data are delimited, and together they are the data from its first start code. */
  lemma UnitsOfData(raw: Bytes)
    ensures Delimited(Units(raw))
    ensures Codes(raw, 0) != [] ==> Codes(raw, 0)[0].offset <= |raw| && raw[Codes(raw, 0)[0].offset..] == Concat(Units(raw))
  {
    hide Delimited;
    CutDelimited(raw, 0);
    FirstCode(raw, 0);
  }

  /** A unit is empty exactly when another start code follows its own at once, or its own is a
      four-byte one at the very end. */
  lemma EmptyUnitIff(raw: Bytes, i: nat)
    requires i < |Codes(raw, 0)|
    ensures |Units(raw)| == |Codes(raw, 0)|
    ensures Units(raw)[i].body == []
            <==> var c := Codes(raw, 0)[i];
                 if i + 1 < |Codes(raw, 0)| then Codes(raw, 0)[i + 1].offset == c.End()
                 else c.size == 4 && c.End() == |raw|
  {
    hide Codes;
    CodesOrdered(raw, 0);
    UnitAt(raw, Codes(raw, 0), i);
    CodeInData(raw, 0, i);
  }

  lemma {:induction false} UnitAt(raw: Bytes, codes: seq<StartCode>, i: nat)
    requires Ordered(raw, codes) && i < |codes|
    ensures var end := if i + 1 < |codes| then codes[i + 1].offset else |raw|;
            codes[i].End() <= end <= |raw| && Cut(raw, codes)[i] == Unit(codes[i].size, raw[codes[i].End()..end])
  {
    if i > 0 {
      UnitAt(raw, codes[1..], i - 1);
    }
  }

  lemma {:induction false} CodeInData(raw: Bytes, offset: nat, i: nat)
    requires i < |Codes(raw, offset)|
    ensures var c := Codes(raw, offset)[i];
            c.offset + 3 < |raw| && c.size == MarkerAt(raw, c.offset) > 0
    decreases i
  {
    hide Codes;
    hide MarkerAt;
    FirstCode(raw, offset);
    var codes := Codes(raw, offset);
    if i > 0 {
      CodeInData(raw, codes[0].End(), i - 1);
      assert codes[i] == codes[1..][i - 1];
    }
  }

  /** `nal[marker_size] & 0x1F` in {1, 5}: a coded slice, which starts a frame. */
  predicate IsVideo(u: Unit)
    requires u.body != []
  {
    var kind := u.body[0] % 0x20;
    kind == 1 || kind == 5
  }

  predicate ValidPairs(pairs: seq<Bytes>) {
    1 <= |pairs| <= 31 && forall pair | pair in pairs :: |pair| == 2
  }

  function Triplets(pairs: seq<Bytes>): Bytes {
    if pairs == [] then [] else [0xFC] + pairs[0] + Triplets(pairs[1..])
  }

  /** The registered user data that carries the caption pairs. */
  function CaptionPayload(pairs: seq<Bytes>): Bytes
    requires ValidPairs(pairs)
  {
    [0xB5, 0x00, 0x31, 0x47, 0x41, 0x39, 0x34, 0x03, 0x40 + |pairs|, 0x00] + Triplets(pairs) + [0xFF]
  }

  lemma {:induction false} TripletsLength(pairs: seq<Bytes>)
    requires forall pair | pair in pairs :: |pair| == 2
    ensures |Triplets(pairs)| == 3 * |pairs|
  {
    if pairs != [] {
      TripletsLength(pairs[1..]);
    }
  }

  /** The payload of valid pairs is always short enough for its one length byte. */
  lemma PayloadShort(pairs: seq<Bytes>)
    requires ValidPairs(pairs)
    ensures |CaptionPayload(pairs)| == 11 + 3 * |pairs| < 255
  {
    TripletsLength(pairs);
  }

  /** The caption unit; the length byte is exact because the payload is short. */
  function CaptionUnit(pairs: seq<Bytes>): Unit
    requires ValidPairs(pairs)
  {
    PayloadShort(pairs);
    Unit(4, [0x06, 0x04, |CaptionPayload(pairs)|] + CaptionPayload(pairs) + [0x80])
  }

  /** A unit of the output, and whether it was inserted. */
  datatype Placed = Placed(unit: Unit, inserted: bool)

  datatype Problem = EmptyUnit | InvalidPacket(frame: nat) | MissingFrames

  type Events = map<nat, seq<Bytes>>

  /** The units with captions before the frames that ask for them; `frames` have gone before. */
  function Inject(units: seq<Unit>, events: Events, frames: nat): Result<seq<Placed>, Problem> {
    if units == [] then Success([])
    else if units[0].body == [] then Failure(EmptyUnit)
    else
      var u := units[0];
      var count := if IsVideo(u) then frames + 1 else frames;
      if IsVideo(u) && count in events && !ValidPairs(events[count]) then Failure(InvalidPacket(count))
      else
        var rest := Inject(units[1..], events, count);
        if rest.Failure? then rest
        else
          Success((if IsVideo(u) && count in events then [Placed(CaptionUnit(events[count]), true)] else [])
                  + [Placed(u, false)] + rest.value)
  }

  /** How many frames the units have. */
  function Frames(units: seq<Unit>): nat {
    if units == [] then 0
    else Frames(units[1..]) + (if units[0].body != [] && IsVideo(units[0]) then 1 else 0)
  }

  /** Exactly when the insertion succeeds: no unit is empty, and every requested frame that there is
      has a valid packet. */
  lemma {:induction false} InjectSucceedsIff(units: seq<Unit>, events: Events, frames: nat)
    ensures Inject(units, events, frames).Success?
            <==> (forall u | u in units :: u.body != [])
                 && forall f | f in events && frames < f <= frames + Frames(units) :: ValidPairs(events[f])
  {
    hide ValidPairs;
    hide CaptionUnit;
    if units != [] {
      var u := units[0];
      assert units == [u] + units[1..];
      if u.body != [] {
        InjectSucceedsIff(units[1..], events, if IsVideo(u) then frames + 1 else frames);
      } else {
        assert u in units;
      }
    }
  }

  /** No problem in the first `i` units. */
  ghost predicate CleanBefore(units: seq<Unit>, events: Events, frames: nat, i: nat)
    requires i <= |units|
  {
    && (forall j | 0 <= j < i :: units[j].body != [])
    && forall f | f in events && frames < f <= frames + Frames(units[..i]) :: ValidPairs(events[f])
  }

  /** What is reported is the first problem in the stream: an empty unit, or a request at its frame that
      cannot be packed. */
  lemma {:induction false} FirstProblem(units: seq<Unit>, events: Events, frames: nat)
    requires Inject(units, events, frames).Failure?
    ensures exists i :: 0 <= i < |units| && CleanBefore(units, events, frames, i)
              && ProblemAt(units, events, frames, i, Inject(units, events, frames).error)
  {
    hide ValidPairs;
    hide CaptionUnit;
    var u := units[0];
    var count := if u.body != [] && IsVideo(u) then frames + 1 else frames;
    assert units[..0] == [] && CleanBefore(units, events, frames, 0);
    if u.body == [] || (IsVideo(u) && count in events && !ValidPairs(events[count])) {
      assert ProblemAt(units, events, frames, 0, Inject(units, events, frames).error);
    } else {
      var rest := units[1..];
      FirstProblem(rest, events, count);
      var i :| 0 <= i < |rest| && CleanBefore(rest, events, count, i)
               && ProblemAt(rest, events, count, i, Inject(rest, events, count).error);
      FramesFront(units, i + 1);
      assert ProblemAt(units, events, frames, i + 1, Inject(units, events, frames).error);
      forall j | 0 <= j < i + 1 ensures units[j].body != [] {
        if j > 0 { assert units[j] == rest[j - 1]; }
      }
      assert CleanBefore(units, events, frames, i + 1);
    }
  }

  lemma FramesFront(units: seq<Unit>, i: nat)
    requires 1 <= i <= |units|
    ensures Frames(units[..i]) == Frames(units[1..][..i - 1]) + (if units[0].body != [] && IsVideo(units[0]) then 1 else 0)
  {
    assert units[..i][0] == units[0] && units[..i][1..] == units[1..][..i - 1];
  }

  /** The problem that unit `i` is. */
  ghost predicate ProblemAt(units: seq<Unit>, events: Events, frames: nat, i: nat, p: Problem)
    requires i < |units|
  {
    match p
    case EmptyUnit => units[i].body == []
    case InvalidPacket(frame) =>
      && units[i].body != [] && IsVideo(units[i]) && frame == frames + Frames(units[..i]) + 1
      && frame in events && !ValidPairs(events[frame])
    case MissingFrames => false
  }

  function Originals(placed: seq<Placed>): seq<Unit> {
    if placed == [] then []
    else (if placed[0].inserted then [] else [placed[0].unit]) + Originals(placed[1..])
  }

  function UnitsOf(placed: seq<Placed>): seq<Unit> {
    if placed == [] then [] else [placed[0].unit] + UnitsOf(placed[1..])
  }

  /** Taking the captions out again gives back the units. */
  lemma {:induction false} InjectKeeps(units: seq<Unit>, events: Events, frames: nat)
    requires Inject(units, events, frames).Success?
    ensures Originals(Inject(units, events, frames).value) == units
  {
    hide ValidPairs;
    hide CaptionUnit;
    if units != [] {
      var u := units[0];
      InjectKeeps(units[1..], events, if IsVideo(u) then frames + 1 else frames);
      assert units == [u] + units[1..];
    }
  }

  /** The number of the frame that would come at position `i`, when `frames` have gone before. */
  function FrameAt(placed: seq<Placed>, frames: nat, i: nat): nat
    requires i <= |placed|
  {
    if i == 0 then frames + 1
    else
      FrameAt(placed[1..], if !placed[0].inserted && placed[0].unit.body != [] && IsVideo(placed[0].unit) then frames + 1 else frames, i - 1)
  }

  /** A caption stands right before the frame it was requested for, with the pairs requested. */
  predicate CaptionFor(placed: seq<Placed>, events: Events, frames: nat, i: nat)
    requires i < |placed|
  {
    var f := FrameAt(placed, frames, i);
    && f in events && ValidPairs(events[f]) && placed[i].unit == CaptionUnit(events[f])
    && i + 1 < |placed| && !placed[i + 1].inserted && placed[i + 1].unit.body != [] && IsVideo(placed[i + 1].unit)
  }

  /** Position `i` is right: a caption for the frame after it, or a unit that lacks none. */
  predicate RightAt(placed: seq<Placed>, events: Events, frames: nat, i: nat)
    requires i < |placed|
  {
    var p := placed[i];
    if p.inserted then CaptionFor(placed, events, frames, i)
    else p.unit.body != [] && IsVideo(p.unit) && FrameAt(placed, frames, i) in events ==> i > 0 && placed[i - 1].inserted
  }

  lemma RightAfterUnit(p: Placed, rest: seq<Placed>, events: Events, frames: nat, i: nat)
    requires !p.inserted && p.unit.body != [] && 1 <= i <= |rest|
    requires RightAt(rest, events, if IsVideo(p.unit) then frames + 1 else frames, i - 1)
    ensures RightAt([p] + rest, events, frames, i)
  {
    hide ValidPairs;
    hide CaptionUnit;
    hide IsVideo;
    var placed := [p] + rest;
    assert placed[1..] == rest;
    assert FrameAt(placed, frames, i) == FrameAt(rest, if IsVideo(p.unit) then frames + 1 else frames, i - 1);
  }

  lemma RightAfterCaption(p: Placed, rest: seq<Placed>, events: Events, frames: nat, i: nat)
    requires p.inserted && 1 <= i <= |rest| && RightAt(rest, events, frames, i - 1)
    ensures RightAt([p] + rest, events, frames, i)
  {
    hide ValidPairs;
    hide CaptionUnit;
    hide IsVideo;
    var placed := [p] + rest;
    assert placed[1..] == rest;
    assert FrameAt(placed, frames, i) == FrameAt(rest, frames, i - 1);
  }

  /** The unit right after its caption. */
  lemma RightWithCaption(u: Unit, rest: seq<Placed>, events: Events, frames: nat)
    requires u.body != [] && IsVideo(u) && frames + 1 in events && ValidPairs(events[frames + 1])
    ensures var placed := [Placed(CaptionUnit(events[frames + 1]), true)] + ([Placed(u, false)] + rest);
            RightAt(placed, events, frames, 0) && RightAt(placed, events, frames, 1)
  {
    hide ValidPairs;
    hide CaptionUnit;
  }

  /** Captions are inserted exactly before the requested frames. */
  lemma {:induction false} InjectWhere(units: seq<Unit>, events: Events, frames: nat, i: nat)
    requires Inject(units, events, frames).Success? && i < |Inject(units, events, frames).value|
    ensures RightAt(Inject(units, events, frames).value, events, frames, i)
    decreases |units|
  {
    hide ValidPairs;
    hide CaptionUnit;
    hide RightAt;
    var placed := Inject(units, events, frames).value;
    var u := units[0];
    var count := if IsVideo(u) then frames + 1 else frames;
    var rest := Inject(units[1..], events, count).value;
    var tail := [Placed(u, false)] + rest;
    if IsVideo(u) && count in events {
      var caption := Placed(CaptionUnit(events[count]), true);
      assert placed == [caption] + tail;
      RightWithCaption(u, rest, events, frames);
      if i >= 2 {
        InjectWhere(units[1..], events, count, i - 2);
        RightAfterUnit(Placed(u, false), rest, events, frames, i - 1);
        RightAfterCaption(caption, tail, events, frames, i);
      }
    } else {
      assert placed == tail;
      if i >= 1 {
        InjectWhere(units[1..], events, count, i - 1);
        RightAfterUnit(Placed(u, false), rest, events, frames, i);
      } else {
        RightAlone(u, rest, events, frames);
      }
    }
  }

  lemma RightAlone(u: Unit, rest: seq<Placed>, events: Events, frames: nat)
    requires u.body != [] && !(IsVideo(u) && frames + 1 in events)
    ensures RightAt([Placed(u, false)] + rest, events, frames, 0)
  {
  }

  /** A four-byte start code hides no code that a three-byte one would not. */
  lemma QuietBeforeFour(body: Bytes)
    requires Quiet(body, Code(3))
    ensures Quiet(body, Code(4))
  {
    var s, t := body + Code(4), body + Code(3);
    forall o | 0 <= o < |body| && o + 3 < |s| ensures MarkerAt(s, o) == 0 {
      assert o + 3 < |t| && MarkerAt(t, o) == 0;
      assert s[o] == t[o] && s[o + 1] == t[o + 1];
      assert o + 2 < |body| + 2 ==> s[o + 2] == t[o + 2];
    }
  }

  lemma {:induction false} TripletPair(pairs: seq<Bytes>, i: nat)
    requires (forall pair | pair in pairs :: |pair| == 2) && i < |pairs|
    ensures |Triplets(pairs)| == 3 * |pairs|
    ensures Triplets(pairs)[3 * i..3 * i + 3] == [0xFC] + pairs[i]
  {
    TripletsLength(pairs);
    var first := [0xFC] + pairs[0];
    assert |first| == 3 && Triplets(pairs) == first + Triplets(pairs[1..]);
    if i > 0 {
      TripletPair(pairs[1..], i - 1);
      assert Triplets(pairs)[3 * i..3 * i + 3] == Triplets(pairs[1..])[3 * (i - 1)..3 * (i - 1) + 3];
    }
  }

  /** Every byte of a caption unit: supplemental information (6) of registered user data (4) and its
      length, the country and provider of ATSC captions, "GA94", the type of the data, the number of
      pairs, each pair behind a marker, and the marker and stop bits at the end. */
  lemma CaptionBytes(pairs: seq<Bytes>)
    requires ValidPairs(pairs)
    ensures var u, n := CaptionUnit(pairs), |pairs|;
      && u.code == 4 && |u.body| == 15 + 3 * n
      && u.body[..3] == [6, 4, 11 + 3 * n] && u.body[3..6] == [0xB5, 0, 0x31]
      && u.body[6] == 'G' as int && u.body[7] == 'A' as int && u.body[8] == '9' as int && u.body[9] == '4' as int
      && u.body[10] == 3 && u.body[11] == 64 + n && u.body[12] == 0
      && (forall i | 0 <= i < n :: u.body[13 + 3 * i..16 + 3 * i] == [0xFC] + pairs[i])
      && u.body[13 + 3 * n] == 0xFF && u.body[14 + 3 * n] == 0x80
  {
    hide Triplets;
    PayloadShort(pairs);
    CaptionParts(pairs);
    TripletsLength(pairs);
    var body, t := CaptionUnit(pairs).body, Triplets(pairs);
    hide CaptionUnit;
    forall i | 0 <= i < |pairs| ensures body[13 + 3 * i..16 + 3 * i] == [0xFC] + pairs[i] {
      TripletPair(pairs, i);
      assert body[13 + 3 * i..16 + 3 * i] == t[3 * i..3 * i + 3];
    }
  }

  lemma {:induction false} TripletByte(pairs: seq<Bytes>, i: nat)
    requires (forall pair | pair in pairs :: |pair| == 2) && i < |Triplets(pairs)| && i % 3 == 0
    ensures Triplets(pairs)[i] == 0xFC
  {
    if i >= 3 {
      TripletByte(pairs[1..], i - 3);
      assert |pairs[0]| == 2;
      assert Triplets(pairs)[i] == Triplets(pairs[1..])[i - 3];
    }
  }

  function CaptionHead(pairs: seq<Bytes>): (r: Bytes)
    requires ValidPairs(pairs)
    ensures |r| == 13 && r[2] != 0 && r[11] != 0
  {
    PayloadShort(pairs);
    [0x06, 0x04, |CaptionPayload(pairs)|, 0xB5, 0x00, 0x31, 0x47, 0x41, 0x39, 0x34, 0x03, 0x40 + |pairs|, 0x00]
  }

  lemma CaptionParts(pairs: seq<Bytes>)
    requires ValidPairs(pairs)
    ensures CaptionUnit(pairs).code == 4
    ensures CaptionUnit(pairs).body == CaptionHead(pairs) + Triplets(pairs) + [0xFF, 0x80]
  {
    hide Triplets;
    var body, t := CaptionUnit(pairs).body, Triplets(pairs);
    PayloadShort(pairs);
    assert body == [0x06, 0x04, |CaptionPayload(pairs)|] + CaptionPayload(pairs) + [0x80];
  }

  /** Two zero bytes among the triplets are a pair, and a marker or the end follows them. */
  lemma TripletZeros(pairs: seq<Bytes>, k: nat)
    requires (forall pair | pair in pairs :: |pair| == 2) && k + 1 < |Triplets(pairs)|
    requires Triplets(pairs)[k] == 0 && Triplets(pairs)[k + 1] == 0
    ensures k % 3 == 1 && (k + 2 < |Triplets(pairs)| ==> Triplets(pairs)[k + 2] == 0xFC)
  {
    if k % 3 == 0 { TripletByte(pairs, k); }
    if k % 3 == 2 { TripletByte(pairs, k + 1); }
    if k % 3 == 1 && k + 2 < |Triplets(pairs)| { TripletByte(pairs, k + 2); }
  }

  lemma CaptionZeros(pairs: seq<Bytes>, body: Bytes, o: nat)
    requires ValidPairs(pairs) && body == CaptionHead(pairs) + Triplets(pairs) + [0xFF, 0x80]
    requires o + 1 < |body| && body[o] == 0 && body[o + 1] == 0
    ensures o + 2 < |body| && body[o + 2] in {0xFC, 0xFF}
  {
    hide Triplets;
    hide CaptionPayload;
    var t := Triplets(pairs);
    TripletsLength(pairs);
    TripletByte(pairs, 0);
    if 13 <= o && o + 1 < 13 + |t| {
      TripletZeros(pairs, o - 13);
    }
  }

  /** A caption unit has no start code in it, whatever follows. */
  lemma CaptionQuiet(pairs: seq<Bytes>, next: Bytes)
    requires ValidPairs(pairs)
    ensures Quiet(CaptionUnit(pairs).body, next)
  {
    hide Triplets;
    hide CaptionHead;
    hide CaptionUnit;
    hide ValidPairs;
    var body := CaptionUnit(pairs).body;
    var s := body + next;
    CaptionParts(pairs);
    assert body[|body| - 1] == 0x80;
    forall o | 0 <= o < |body| && o + 3 < |s| ensures MarkerAt(s, o) == 0 {
      if o + 1 < |body| && body[o] == 0 && body[o + 1] == 0 {
        CaptionZeros(pairs, body, o);
        assert s[o + 2] == body[o + 2];
      }
    }
  }

  /** What comes first after the insertion: the same code as before, or a caption's. */
  lemma FirstPlaced(units: seq<Unit>, events: Events, frames: nat)
    requires Inject(units, events, frames).Success?
    ensures var placed := Inject(units, events, frames).value;
            (units == [] <==> placed == []) && NextCode(UnitsOf(placed)) in {NextCode(units), Code(4)}
            && (units == [] ==> NextCode(UnitsOf(placed)) == [])
  {
    hide ValidPairs;
  }

  /** The units with the captions among them can be told apart as well. */
  lemma {:induction false} InjectDelimited(units: seq<Unit>, events: Events, frames: nat)
    requires Delimited(units) && Inject(units, events, frames).Success?
    ensures Delimited(UnitsOf(Inject(units, events, frames).value))
    decreases |units|
  {
    hide ValidPairs;
    hide CaptionUnit;
    hide Quiet;
    if units != [] {
      var u := units[0];
      var count := if IsVideo(u) then frames + 1 else frames;
      var rest := Inject(units[1..], events, count).value;
      InjectDelimited(units[1..], events, count);
      FirstPlaced(units[1..], events, count);
      if NextCode(UnitsOf(rest)) != NextCode(units[1..]) && NextCode(units[1..]) == Code(3) {
        QuietBeforeFour(u.body);
      }
      DelimitedStep(u, UnitsOf(rest));
      var whole := [u] + UnitsOf(rest);
      if IsVideo(u) && count in events {
        CaptionQuiet(events[count], NextCode(whole));
        CaptionParts(events[count]);
        DelimitedStep(CaptionUnit(events[count]), whole);
        UnitsOfTwo(Placed(CaptionUnit(events[count]), true), Placed(u, false), rest);
      } else {
        UnitsOfOne(Placed(u, false), rest);
      }
    }
  }

  lemma UnitsOfOne(p: Placed, rest: seq<Placed>)
    ensures UnitsOf([p] + rest) == [p.unit] + UnitsOf(rest)
    ensures [] + [p] + rest == [p] + rest
  {
    assert ([p] + rest)[1..] == rest;
  }

  lemma UnitsOfTwo(p: Placed, q: Placed, rest: seq<Placed>)
    ensures UnitsOf([p] + [q] + rest) == [p.unit] + ([q.unit] + UnitsOf(rest))
  {
    assert ([p] + [q] + rest)[1..] == [q] + rest;
    UnitsOfOne(q, rest);
  }

  /** `inject_a53_caption_events`, on the bytes of the files. */
  function Injected(raw: Bytes, events: Events): Result<Bytes, Problem> {
    var placed := Inject(Units(raw), events, 0);
    if placed.Failure? then Failure(placed.error)
    else if exists f :: f in events && !(1 <= f <= Frames(Units(raw))) then Failure(MissingFrames)
    else Success(Concat(UnitsOf(placed.value)))
  }

  /** Frames are reported missing exactly when nothing else is wrong and some request is for one that is
      not there; otherwise the first problem in the stream is reported. */
  lemma ProblemIs(raw: Bytes, events: Events)
    requires Injected(raw, events).Failure?
    ensures var units := Units(raw);
      if Injected(raw, events).error == MissingFrames then
        && CleanBefore(units, events, 0, |units|) && exists f :: f in events && (f < 1 || f > Frames(units))
      else
        exists i :: 0 <= i < |units| && CleanBefore(units, events, 0, i) && ProblemAt(units, events, 0, i, Injected(raw, events).error)
  {
    hide ValidPairs;
    hide Units;
    var units := Units(raw);
    assert units[..|units|] == units;
    InjectSucceedsIff(units, events, 0);
    if Inject(units, events, 0).Failure? {
      FirstProblem(units, events, 0);
    } else {
      forall j | 0 <= j < |units| ensures units[j].body != [] { assert units[j] in units; }
    }
  }

  /** The insertion succeeds exactly when no unit is empty and every request is for a frame that is
      there, with between one and thirty-one pairs of two bytes. */
  lemma InjectedIff(raw: Bytes, events: Events)
    ensures Injected(raw, events).Success?
            <==> (forall u | u in Units(raw) :: u.body != [])
                 && forall f | f in events ::
                      && 1 <= f <= |FrameUnits(Units(raw))|
                      && 1 <= |events[f]| <= 31 && forall pair | pair in events[f] :: |pair| == 2
  {
    hide Units;
    FramesCounted(Units(raw));
    hide FrameUnits;
    InjectSucceedsIff(Units(raw), events, 0);
  }

  /** The units that start a frame: coded slices, of type 1, or 5 for one that refers to no other. */
  ghost function FrameUnits(units: seq<Unit>): set<nat> {
    set i: nat | i < |units| && StartsFrame(units[i])
  }

  predicate StartsFrame(u: Unit) {
    u.body != [] && u.body[0] % 32 in {1, 5}
  }

  lemma FirstFrameUnit(units: seq<Unit>, moved: set<nat>)
    requires units != [] && moved == set i | i in FrameUnits(units[1..]) :: i + 1
    ensures FrameUnits(units) == (if StartsFrame(units[0]) then {0} else {}) + moved
  {
    var rest := units[1..];
    forall i: nat ensures i in FrameUnits(units) <==> (i == 0 && StartsFrame(units[0])) || i in moved {
      if i > 0 {
        assert i < |units| ==> units[i] == rest[i - 1];
        assert i - 1 in FrameUnits(rest) <==> i in moved;
      }
    }
  }

  lemma {:induction false} FramesCounted(units: seq<Unit>)
    ensures Frames(units) == |FrameUnits(units)|
  {
    hide FrameUnits;
    if units == [] {
      NoFrameUnits();
    } else {
      var rest := units[1..];
      FramesCounted(rest);
      var moved := set i: nat | i in FrameUnits(rest) :: i + 1;
      ShiftedSize(FrameUnits(rest), moved);
      FirstFrameUnit(units, moved);
      assert 0 !in moved;
    }
  }

  lemma NoFrameUnits()
    ensures FrameUnits([]) == {}
  {
  }

  lemma {:induction false} ShiftedSize(s: set<nat>, t: set<nat>)
    requires t == set i | i in s :: i + 1
    ensures |t| == |s|
  {
    if s != {} {
      var x :| x in s;
      var rest := set i | i in s - {x} :: i + 1;
      ShiftedSize(s - {x}, rest);
      forall y: nat ensures y in t <==> y in rest + {x + 1} {
        if y > 0 {
          assert y in t <==> y - 1 in s;
          assert y in rest <==> y - 1 in s - {x};
        }
      }
      assert t == rest + {x + 1} && x + 1 !in rest;
    }
  }

  /** Scanning the output again finds the original units in order with the captions among them, and
      without the captions they are the input from its first start code on. */
  lemma OutputRescans(raw: Bytes, events: Events)
    requires Injected(raw, events).Success?
    ensures var placed := Inject(Units(raw), events, 0).value;
      && Units(Injected(raw, events).value) == UnitsOf(placed)
      && Originals(placed) == Units(raw)
      && (Codes(raw, 0) != [] ==> Codes(raw, 0)[0].offset <= |raw| && Concat(Originals(placed)) == raw[Codes(raw, 0)[0].offset..])
  {
    hide Codes;
    hide Units;
    hide Delimited;
    hide Concat;
    UnitsOfData(raw);
    InjectKeeps(Units(raw), events, 0);
    InjectDelimited(Units(raw), events, 0);
    UnitsOfConcat(UnitsOf(Inject(Units(raw), events, 0).value));
  }

  method BuildTriplets(pairs: seq<Bytes>) returns (triplets: Bytes)
    ensures triplets == Triplets(pairs)
  {
    triplets := [];
    for i := 0 to |pairs|
      invariant triplets + Triplets(pairs[i..]) == Triplets(pairs)
    {
      assert pairs[i..][0] == pairs[i] && pairs[i..][1..] == pairs[i + 1..];
      triplets := triplets + ([0xFC] + pairs[i]);
    }
  }

  /** The caption unit as it is built. */
  method BuildCaption(pairs: seq<Bytes>) returns (sei: Bytes)
    requires ValidPairs(pairs)
    ensures sei == Whole(CaptionUnit(pairs))
  {
    hide Triplets;
    var triplets := BuildTriplets(pairs);
    PayloadShort(pairs);
    var payload: Bytes := [0xB5, 0x00, 0x31, 0x47, 0x41, 0x39, 0x34, 0x03, 0x40 + |pairs|, 0x00] + triplets + [0xFF];
    var marker: Bytes, body: Bytes := [0, 0, 0, 1], [0x06] + [0x04, |payload|] + payload + [0x80];
    sei := marker + body;
    assert body == CaptionUnit(pairs).body;
  }

  /** What is done and what is left to do are what is to be done in all. */
  ghost predicate Remaining(units: seq<Unit>, events: Events, output: Bytes, frames: nat, number: nat)
    requires number <= |units|
  {
    var all, rest := Inject(units, events, 0), Inject(units[number..], events, frames);
    && frames + Frames(units[number..]) == Frames(units)
    && if rest.Failure? then all == Failure(rest.error)
       else all.Success? && Concat(UnitsOf(all.value)) == output + Concat(UnitsOf(rest.value))
  }

  lemma RemainingFirst(units: seq<Unit>, events: Events)
    ensures Remaining(units, events, [], 0, 0)
  {
    hide Inject;
    hide Concat;
    assert units[0..] == units;
  }

  lemma RemainingLast(units: seq<Unit>, events: Events, output: Bytes, frames: nat)
    requires Remaining(units, events, output, frames, |units|)
    ensures Inject(units, events, 0).Success? && Concat(UnitsOf(Inject(units, events, 0).value)) == output && frames == Frames(units)
  {
    assert units[|units|..] == [];
    assert Inject([], events, frames) == Success([]);
    assert Concat(UnitsOf([])) == [];
    assert output + [] == output;
  }

  /** One turn of the loop. */
  lemma RemainingStep(units: seq<Unit>, events: Events, output: Bytes, frames: nat, number: nat)
    requires number < |units| && Remaining(units, events, output, frames, number)
    ensures var u := units[number];
      if u.body == [] then Inject(units, events, 0) == Failure(EmptyUnit)
      else
        var count := if IsVideo(u) then frames + 1 else frames;
        if IsVideo(u) && count in events && !ValidPairs(events[count])
        then Inject(units, events, 0) == Failure(InvalidPacket(count))
        else Remaining(units, events,
                       output + (if IsVideo(u) && count in events then Whole(CaptionUnit(events[count])) else []) + Whole(u), count, number + 1)
  {
    hide ValidPairs;
    hide CaptionUnit;
    hide Whole;
    var u, rest := units[number], units[number..];
    assert rest[0] == u && rest[1..] == units[number + 1..];
    if u.body != [] {
      var count := if IsVideo(u) then frames + 1 else frames;
      var after := Inject(units[number + 1..], events, count);
      if Inject(rest, events, frames).Success? {
        if IsVideo(u) && count in events {
          UnitsOfTwo(Placed(CaptionUnit(events[count]), true), Placed(u, false), after.value);
          ConcatTwo(CaptionUnit(events[count]), u, UnitsOf(after.value), output);
        } else {
          UnitsOfOne(Placed(u, false), after.value);
          ConcatOne(u, UnitsOf(after.value), output);
        }
      }
    }
  }

  lemma ConcatOne(u: Unit, rest: seq<Unit>, output: Bytes)
    ensures output + Concat([u] + rest) == output + [] + Whole(u) + Concat(rest)
  {
    assert ([u] + rest)[1..] == rest;
  }

  lemma ConcatTwo(c: Unit, u: Unit, rest: seq<Unit>, output: Bytes)
    ensures output + Concat([c] + ([u] + rest)) == output + Whole(c) + Whole(u) + Concat(rest)
  {
    assert ([c] + ([u] + rest))[1..] == [u] + rest;
    assert ([u] + rest)[1..] == rest;
  }

  lemma NalWhole(raw: Bytes, c: StartCode, end: nat)
    requires c.offset + 3 < |raw| && c.size == MarkerAt(raw, c.offset) > 0 && c.End() <= end <= |raw|
    ensures raw[c.offset..end] == Whole(Unit(c.size, raw[c.End()..end])) && |raw[c.offset..end]| == c.size + (end - c.End())
    ensures c.End() < end ==> raw[c.offset..end][c.size] == raw[c.End()..end][0]
  {
    CodeAt(raw, c.offset);
    SliceJoin(raw, c.offset, c.End(), end);
  }

  method InjectCaptions(raw: Bytes, events: Events) returns (r: Result<Bytes, Problem>)
    ensures r == Injected(raw, events)
  {
    hide ValidPairs;
    hide CaptionUnit;
    hide Codes;
    hide MarkerAt;
    hide Inject;
    hide Remaining;
    hide Whole;
    hide Cut;
    hide Concat;
    var codes := FindStartCodes(raw);
    CodesOrdered(raw, 0);
    ghost var units := Units(raw);
    RemainingFirst(units, events);
    var output: Bytes := [];
    var videoFrames := 0;
    var injected: set<nat> := {};
    for number := 0 to |codes|
      invariant Remaining(units, events, output, videoFrames, number)
      invariant forall f :: f in injected <==> f in events && 1 <= f <= videoFrames
    {
      UnitAt(raw, codes, number);
      CodeInData(raw, 0, number);
      var c := codes[number];
      var end := if number + 1 < |codes| then codes[number + 1].offset else |raw|;
      var nal := raw[c.offset..end];
      NalWhole(raw, c, end);
      RemainingStep(units, events, output, videoFrames, number);
      assert output + [] == output;
      if |nal| == c.size {
        return Failure(EmptyUnit);
      }
      var kind := nal[c.size] % 0x20;
      if kind == 1 || kind == 5 {
        videoFrames := videoFrames + 1;
        if videoFrames in events {
          var pairs := events[videoFrames];
          if !ValidPairs(pairs) {
            return Failure(InvalidPacket(videoFrames));
          }
          var sei := BuildCaption(pairs);
          output := output + sei;
          injected := injected + {videoFrames};
        }
      }
      output := output + nal;
    }
    RemainingLast(units, events, output, videoFrames);
    if events.Keys - injected != {} {
      SomethingMissing(events, injected);
      return Failure(MissingFrames);
    }
    assert forall f | f in events :: f in injected || f in events.Keys - injected;
    return Success(output);
  }

  lemma SomethingMissing(events: Events, injected: set<nat>)
    requires events.Keys - injected != {}
    ensures exists f :: f in events && f !in injected
  {
    var f :| f in events.Keys - injected;
  }
}
