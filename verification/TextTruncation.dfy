/** Shortening optional track texts to a byte limit. */
module TextTruncation {
  import opened Outcomes
  import opened Bytes
  import opened Utf16

  /** How many code points of `text` fit in `limit` bytes of UTF-16. */
  function Fit(text: string, limit: int): (m: nat)
    ensures m <= |text|
  {
    if text == [] || |EncodeChar(text[0])| > limit then 0
    else 1 + Fit(text[1..], limit - |EncodeChar(text[0])|)
  }

  /** The prefix that fits is the longest that does. */
  lemma {:induction false} FitLongest(text: string, limit: int, n: nat)
    requires limit >= 0 && n <= |text|
    ensures |Encode(text[..n])| <= limit <==> n <= Fit(text, limit)
  {
    if n > 0 {
      assert text[..n][0] == text[0] && text[..n][1..] == text[1..][..n - 1];
      if |EncodeChar(text[0])| <= limit {
        FitLongest(text[1..], limit - |EncodeChar(text[0])|, n - 1);
      }
    }
  }

  /** Bytes of the longest prefix that fits. */
  function FitBytes(text: string, limit: int): Bytes {
    Encode(text[..Fit(text, limit)])
  }

  /** A cut through the encoded text decodes exactly when it falls between code points. */
  lemma {:induction false} CutDecodes(text: string, k: nat)
    requires k <= |Encode(text)|
    ensures FitBytes(text, k) <= Encode(text) && |FitBytes(text, k)| <= k
    ensures DecodeStrict(Encode(text)[..k]) == if k == |FitBytes(text, k)| then Some(text[..Fit(text, k)]) else None
  {
    hide Front;
    if k == 0 {
      assert Encode(text)[..k] == [];
      assert text != [] ==> |EncodeChar(text[0])| > 0;
    } else {
      var c, first, rest := text[0], EncodeChar(text[0]), Encode(text[1..]);
      var cut := Encode(text)[..k];
      if |first| <= k {
        var m := Fit(text[1..], k - |first|);
        assert text[..m + 1][0] == c && text[..m + 1][1..] == text[1..][..m];
        assert cut == first + rest[..k - |first|];
        FrontOfChar(c, rest[..k - |first|]);
        assert cut[|first|..] == rest[..k - |first|];
        CutDecodes(text[1..], k - |first|);
        assert [c] + text[1..][..m] == text[..m + 1];
      } else {
        assert text[..0] == [];
        assert cut == first[..k];
        PartialChar(c, k);
      }
    }
  }

  lemma PartialChar(c: char, k: nat)
    requires 0 < k < |EncodeChar(c)|
    ensures Front(EncodeChar(c)[..k]) == Bad(k)
  {
    var v := c as int;
    var cut := EncodeChar(c)[..k];
    if k >= 2 {
      var high := 0xD800 + (v - 0x1_0000) / 0x400;
      UnpackU16(high);
      AtRead(cut, 0, Unit(high), 0) by { assert cut[0..2] == Unit(high); }
    }
  }

  /** Where errors are replaced, a cut through the encoded text decodes to the code points before it, and
      one replacement character if it goes through a code point. */
  lemma {:induction false} CutReplaced(text: string, k: nat)
    requires k <= |Encode(text)|
    ensures DecodeReplace(Encode(text)[..k]) == text[..Fit(text, k)] + if k == |FitBytes(text, k)| then [] else [REPLACEMENT]
  {
    hide Front;
    hide FitBytes;
    CutDecodes(text, k);
    var cut := Encode(text)[..k];
    if k == 0 {
      assert cut == [];
    } else {
      var c, first, rest := text[0], EncodeChar(text[0]), Encode(text[1..]);
      if |first| <= k {
        var less := k - |first|;
        assert cut == first + rest[..less];
        FrontOfChar(c, rest[..less]);
        assert cut[|first|..] == rest[..less];
        CutReplaced(text[1..], less);
        WholeCut(text, k);
        assert [c] + text[1..][..Fit(text[1..], less)] == text[..Fit(text, k)];
      } else {
        assert cut == first[..k];
        PartialChar(c, k);
        assert cut[k..] == [];
        assert text[..0] == [];
        assert |FitBytes(text, k)| == 0 by { NothingFits(text, k); }
      }
    }
  }

  lemma NothingFits(text: string, k: nat)
    requires Fit(text, k) == 0
    ensures FitBytes(text, k) == []
  {
    assert text[..0] == [];
  }

  lemma WholeCut(text: string, k: nat)
    requires text != [] && |EncodeChar(text[0])| <= k
    ensures |FitBytes(text, k)| == |EncodeChar(text[0])| + |FitBytes(text[1..], k - |EncodeChar(text[0])|)|
  {
    var m := Fit(text[1..], k - |EncodeChar(text[0])|);
    assert text[..m + 1][0] == text[0] && text[..m + 1][1..] == text[1..][..m];
  }

  /** `_truncate_text_to_bytes` for UTF-16-LE */
  method TruncateTextToBytes(text: string, maxBytes: int) returns (r: string)
    ensures r <= text
    ensures maxBytes <= 0 ==> r == ""
    ensures maxBytes > 0 ==> |Encode(r)| <= maxBytes
    ensures maxBytes > 0 ==> forall n | |r| < n <= |text| :: |Encode(text[..n])| > maxBytes
    ensures r == Shortened(text, maxBytes)
  {
    if maxBytes <= 0 {
      return "";
    }
    forall n: nat | n <= |text| ensures |Encode(text[..n])| <= maxBytes <==> n <= Fit(text, maxBytes) {
      FitLongest(text, maxBytes, n);
    }
    assert text[..|text|] == text;
    var encoded := Encode(text);
    if |encoded| <= maxBytes {
      return text;
    }
    var candidate := encoded[..maxBytes];
    while candidate != []
      invariant |candidate| <= maxBytes && candidate == encoded[..|candidate|]
      invariant Fit(text, |candidate|) == Fit(text, maxBytes)
      decreases |candidate|
    {
      CutDecodes(text, |candidate|);
      var decoded := DecodeStrict(candidate);
      if decoded.Some? {
        return decoded.value;
      }
      FitBelow(text, |candidate|);
      candidate := candidate[..|candidate| - 1];
    }
    assert Fit(text, 0) == 0 by { assert text != [] ==> |EncodeChar(text[0])| > 0; }
    return "";
  }

  /** Dropping a byte of a cut that is not between code points loses no code point. */
  lemma FitBelow(text: string, k: nat)
    requires 0 < k && |FitBytes(text, k)| != k
    ensures Fit(text, k - 1) == Fit(text, k)
  {
    FitLongest(text, k, Fit(text, k));
    FitLongest(text, k - 1, Fit(text, k));
    FitLongest(text, k - 1, Fit(text, k - 1));
    FitLongest(text, k, Fit(text, k - 1));
  }

  function Shortened(text: string, maxBytes: int): string {
    if maxBytes <= 0 then "" else text[..Fit(text, maxBytes)]
  }

  /** Shortening twice to the same limit is shortening once. */
  lemma {:induction false} ShortenedOnce(text: string, maxBytes: int)
    ensures Shortened(Shortened(text, maxBytes), maxBytes) == Shortened(text, maxBytes)
  {
    if maxBytes > 0 {
      var r := Shortened(text, maxBytes);
      FitLongest(text, maxBytes, |r|);
      assert r[..|r|] == r;
      FitLongest(r, maxBytes, |r|);
    }
  }

  const LYRICS: nat := 10

  /** `_TRUNCATABLE_MHOD_FIELDS`: the track attribute of each data object type that can be cut. */
  const TRUNCATABLE: map<nat, string> := map[
    7 := "eq_setting", 8 := "comment", 10 := "lyrics", 13 := "grouping", 14 := "description", 18 := "subtitle",
    20 := "episode_id", 21 := "network_name", 24 := "keywords", 25 := "show_locale"
  ]

  /** A track's texts and its lyrics flag; a text that is None is not there. */
  datatype Texts = Texts(values: map<string, string>, hasLyrics: bool) {
    function Get(attribute: string): string {
      if attribute in values then values[attribute] else ""
    }

    function Set(attribute: string, text: string): Texts {
      this.(values := if text == "" then values - {attribute} else values[attribute := text])
    }
  }

  /** What truncating one field of one track leaves. */
  function Truncated(t: Texts, mhodType: nat, limit: nat): Texts
    requires mhodType in TRUNCATABLE
  {
    var attribute := TRUNCATABLE[mhodType];
    var text := t.Get(attribute);
    var shortened := Shortened(text, limit);
    if text == "" then (if mhodType == LYRICS then t.(hasLyrics := false) else t)
    else if shortened == text then t
    else
      var cut := t.Set(attribute, shortened);
      if mhodType == LYRICS then cut.(hasLyrics := shortened != "") else cut
  }

  /** Truncating again with the same limit changes no track. */
  lemma TruncatedOnce(t: Texts, mhodType: nat, limit: nat)
    requires mhodType in TRUNCATABLE
    ensures Truncated(Truncated(t, mhodType, limit), mhodType, limit) == Truncated(t, mhodType, limit)
  {
    hide Shortened;
    ShortenedOnce(t.Get(TRUNCATABLE[mhodType]), limit);
  }

  /** What is left fits the limit, and no flag promises lyrics that are not there. */
  lemma TruncatedFits(t: Texts, mhodType: nat, limit: nat)
    requires mhodType in TRUNCATABLE
    ensures var after := Truncated(t, mhodType, limit);
      && |Encode(after.Get(TRUNCATABLE[mhodType]))| <= limit
      && after.Get(TRUNCATABLE[mhodType]) <= t.Get(TRUNCATABLE[mhodType])
      && (mhodType == LYRICS && after.Get(TRUNCATABLE[mhodType]) == "" ==> !after.hasLyrics)
      && (forall a | a != TRUNCATABLE[mhodType] :: after.Get(a) == t.Get(a))
  {
    var text := t.Get(TRUNCATABLE[mhodType]);
    FitLongest(text, limit, Fit(text, limit));
  }

  class TrackInfo {
    var texts: Texts

    constructor (texts: Texts)
      ensures this.texts == texts
    {
      this.texts := texts;
    }
  }

  /** `truncate_track_mhod_values`; None when the field cannot be truncated. */
  method TruncateTrackMhodValues(tracks: seq<TrackInfo>, mhodType: nat, maxBytes: int) returns (changed: Option<nat>)
    modifies tracks
    ensures changed.Some? <==> mhodType in TRUNCATABLE
    ensures changed.None? ==> forall t | t in tracks :: t.texts == old(t.texts)
    ensures changed.Some? ==> forall t | t in tracks ::
              t.texts == Truncated(old(t.texts), mhodType, if maxBytes > 0 then maxBytes else 0)
    ensures changed.Some? ==> changed.value == |set t | t in tracks && t.texts != old(t.texts)|
  {
    if mhodType !in TRUNCATABLE {
      return None;
    }
    hide Truncated;
    hide Shortened;
    var limit := if maxBytes > 0 then maxBytes else 0;
    var count := 0;
    ghost var done: set<TrackInfo> := {};
    for i := 0 to |tracks|
      invariant forall t | t in tracks && t !in tracks[..i] :: t.texts == old(t.texts)
      invariant forall t | t in tracks[..i] :: t.texts == Truncated(old(t.texts), mhodType, limit)
      invariant forall t :: t in done <==> t in tracks[..i] && t.texts != old(t.texts)
      invariant count == |done|
    {
      var track := tracks[i];
      assert tracks[..i + 1] == tracks[..i] + [track];
      TruncatedOnce(old(track.texts), mhodType, limit);
      var edited := TruncateTrack(track, mhodType, limit);
      if edited {
        assert track !in tracks[..i];
        count := count + 1;
        done := done + {track};
      }
    }
    assert tracks[..|tracks|] == tracks;
    assert done == set t | t in tracks && t.texts != old(t.texts);
    changed := Some(count);
  }

  /** The loop body, for one track. */
  method TruncateTrack(track: TrackInfo, mhodType: nat, limit: nat) returns (edited: bool)
    requires mhodType in TRUNCATABLE
    modifies track
    ensures track.texts == Truncated(old(track.texts), mhodType, limit)
    ensures edited <==> track.texts != old(track.texts)
  {
    var attribute := TRUNCATABLE[mhodType];
    var text := track.texts.Get(attribute);
    if text == "" {
      if mhodType == LYRICS && track.texts.hasLyrics {
        track.texts := track.texts.(hasLyrics := false);
        return true;
      }
      return false;
    }
    var shortened := TruncateTextToBytes(text, limit);
    if shortened == text {
      return false;
    }
    track.texts := track.texts.Set(attribute, shortened);
    if mhodType == LYRICS {
      track.texts := track.texts.(hasLyrics := shortened != "");
    }
    assert track.texts.Get(attribute) == shortened;
    return true;
  }

  /** A field loses all of its text exactly when its first character does not fit; no other field does. */
  lemma CutToNothing(t: Texts, mhodType: nat, limit: nat, a: string)
    requires mhodType in TRUNCATABLE
    ensures Truncated(t, mhodType, limit).Get(a) == ""
            <==> t.Get(a) == "" || (a == TRUNCATABLE[mhodType] && |EncodeChar(t.Get(a)[0])| > limit)
  {
    var text := t.Get(TRUNCATABLE[mhodType]);
    assert text != "" ==> |EncodeChar(text[0])| > 0;
    hide EncodeChar;
    if text != "" {
      assert Shortened(text, limit) == "" <==> limit == 0 || Fit(text, limit) == 0;
    }
  }
}
