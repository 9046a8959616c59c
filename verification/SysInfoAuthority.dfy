/** Which source each SysInfo field is believed from, over any number of identification runs. */
module SysInfoAuthority {
  import opened Outcomes
  import opened Text
  import opened SysInfoText
  import Keys

  /** `_SOURCE_ORDER`: most reliable first. */
  const SOURCE_ORDER: seq<string> := [
    "scsi_vpd", "windows_scsi", "linux_scsi", "sysfs_vpd", "udev_scsi_id", "usb_vendor", "vpd", "iokit", "ioctl",
    "device_tree", "ioreg", "sysfs", "udev", "wmi", "itunes", "serial_lookup", "usb_pid", "disk_size", "model_table",
    "inferred", "sysinfo_extended", "sysinfo", "hashing", "unknown"
  ]

  /** `SYSINFO_FIELDS` */
  const MAPPED: seq<string> := [
    "pszSerialNumber", "FirewireGuid", "visibleBuildID", "BoardHwName", "ModelNumStr", "FamilyID", "UpdaterFamilyID",
    "ModelFamily", "Generation", "Capacity", "Color", "USBProductID"
  ]

  /** `_DERIVED_SYSINFO_KEYS` */
  const DERIVED: set<string> := {"ModelFamily", "Generation", "Capacity", "Color", "USBProductID"}

  function RankIn(order: seq<string>, source: string): nat {
    if order == [] || order[0] == source then 0 else 1 + RankIn(order[1..], source)
  }

  /** `_rank`: lower is more reliable; a source that is not listed ranks last. */
  function Rank(source: string): nat {
    RankIn(SOURCE_ORDER, source)
  }

  lemma {:induction false} RankInIs(order: seq<string>, source: string)
    ensures RankIn(order, source) <= |order|
    ensures RankIn(order, source) < |order| ==> order[RankIn(order, source)] == source
    ensures forall i | 0 <= i < RankIn(order, source) :: order[i] != source
  {
    if order != [] && order[0] != source {
      RankInIs(order[1..], source);
      forall i | 0 <= i < RankIn(order, source) ensures order[i] != source {
        if i > 0 { assert order[i] == order[1..][i - 1]; }
      }
    }
  }

  /** The rank of a source is where it first stands in the order; of 24 ranks the last is for those that
      are not listed. */
  lemma RankIs(source: string)
    ensures Rank(source) <= 24 == |SOURCE_ORDER| && (Rank(source) == 24 <==> source !in SOURCE_ORDER)
    ensures Rank(source) < 24 ==> SOURCE_ORDER[Rank(source)] == source
    ensures forall i | 0 <= i < Rank(source) :: SOURCE_ORDER[i] != source
  {
    RankInIs(SOURCE_ORDER, source);
  }

  function UpperChar(c: char): char {
    if 'a' <= c <= 'z' then c - 'a' + 'A' else c
  }

  /** `s.upper()`, for ASCII letters. */
  function Upper(s: string): (r: string)
    ensures |r| == |s|
  {
    seq(|s|, i requires 0 <= i < |s| => UpperChar(s[i]))
  }

  predicate HasHexPrefix(s: string) {
    |s| >= 2 && s[0] == '0' && (s[1] == 'x' || s[1] == 'X')
  }

  function StripZeros(s: string): string {
    if s != "" && s[0] == '0' then StripZeros(s[1..]) else s
  }

  /** `_normalise_sysinfo_value` */
  function Normal(key: string, raw: string): string {
    var val := RStripNul(Strip(raw));
    if key == "FirewireGuid" then Upper(if HasHexPrefix(val) then val[2..] else val)
    else if key == "ModelNumStr" then
      RStripNul(Upper(if val != "" && val[0] == 'x' then "M" + val[1..] else val))
    else if key == "USBProductID" then
      var digits := StripZeros(Upper(if HasHexPrefix(val) then val[2..] else val));
      if digits == "" then "0" else digits
    else val
  }

  /** `_format_for_sysinfo`, for a text that is not empty. */
  function Format(key: string, value: string): (r: string)
    requires value != ""
    ensures r != ""
  {
    if key == "FirewireGuid" then "0x" + Upper(if HasHexPrefix(value) then value[2..] else value)
    else if key == "ModelNumStr" && value[0] == 'M' then "x" + value[1..]
    else value
  }

  /** No spaces around it, and no NUL at its end. */
  predicate Trimmed(s: string) {
    s != "" && !IsSpace(s[0]) && !IsSpace(s[|s| - 1]) && s[|s| - 1] != '\0'
  }

  lemma TrimmedKept(s: string)
    requires Trimmed(s)
    ensures RStripNul(Strip(s)) == s
  {
  }

  lemma UpperOnce(s: string)
    ensures Upper(Upper(s)) == Upper(s)
  {
  }

  /** Formatting a value does not change what it stands for. */
  lemma FormatKeepsValue(key: string, value: string)
    requires Trimmed(value)
    ensures Normal(key, Format(key, value)) == Normal(key, value)
  {
    hide IsSpace;
    hide Strip;
    hide StripZeros;
    TrimmedKept(value);
    if key == "FirewireGuid" {
      var body := if HasHexPrefix(value) then value[2..] else value;
      var text := "0x" + Upper(body);
      assert body != "" ==> body[|body| - 1] == value[|value| - 1];
      EndsKept(value, body);
      TrimmedKept(text);
      assert text[2..] == Upper(body);
      UpperOnce(body);
    } else if key == "ModelNumStr" && value[0] == 'M' {
      var text := "x" + value[1..];
      XKept(value);
      TrimmedKept(text);
      assert "M" + text[1..] == value;
    }
  }

  /** The form of a formatted text: a GUID behind "0x", a model number not with an "M" in front, any other
      text as it is; formatting it again changes nothing. */
  lemma FormatOnce(key: string, value: string)
    requires value != ""
    ensures Format(key, Format(key, value)) == Format(key, value)
    ensures key == "FirewireGuid" ==> "0x" <= Format(key, value)
    ensures key == "ModelNumStr" ==> Format(key, value)[0] != 'M' && Format(key, value)[1..] == value[1..]
    ensures key !in {"FirewireGuid", "ModelNumStr"} ==> Format(key, value) == value
  {
    if key == "FirewireGuid" {
      var body := if HasHexPrefix(value) then value[2..] else value;
      UpperOnce(body);
      assert ("0x" + Upper(body))[2..] == Upper(body);
    }
  }

  lemma EndsKept(value: string, body: string)
    requires Trimmed(value) && (body != "" ==> body[|body| - 1] == value[|value| - 1])
    ensures Trimmed("0x" + Upper(body))
  {
  }

  lemma XKept(value: string)
    requires Trimmed(value)
    ensures Trimmed("x" + value[1..])
  {
  }

  lemma UpperEnds(s: string)
    requires Trimmed(s)
    ensures RStripNul(Upper(s)) == Upper(s)
  {
  }

  /** Which texts stand for the same value: most fields are compared as they are; a GUID and a model
      number whatever their case, once a prefix is replaced. */
  lemma SameValueIff(key: string, a: string, b: string)
    requires Trimmed(a) && Trimmed(b)
    requires key == "FirewireGuid" ==> !HasHexPrefix(a) && !HasHexPrefix(b)
    requires key == "ModelNumStr" ==> a[0] != 'x' && b[0] != 'x'
    requires key != "USBProductID"
    ensures Normal(key, a) == Normal(key, b)
            <==> if key in {"FirewireGuid", "ModelNumStr"} then Upper(a) == Upper(b) else a == b
  {
    hide Strip;
    hide Trimmed;
    hide Upper;
    TrimmedKept(a);
    TrimmedKept(b);
    UpperEnds(a);
    UpperEnds(b);
  }

  /** The prefixes that make no difference, and the zeros before a product id. */
  lemma PrefixIgnored(s: string)
    requires Trimmed(s)
    ensures !HasHexPrefix(s) ==> Normal("FirewireGuid", "0x" + s) == Normal("FirewireGuid", s)
    ensures Normal("ModelNumStr", "x" + s) == Normal("ModelNumStr", "M" + s)
    ensures !HasHexPrefix("0" + s) && !HasHexPrefix(s) ==> Normal("USBProductID", "0" + s) == Normal("USBProductID", s)
  {
    hide Strip;
    hide Upper;
    PrefixTrimmed(s);
    TrimmedKept(s);
    TrimmedKept("0x" + s);
    TrimmedKept("x" + s);
    TrimmedKept("M" + s);
    TrimmedKept("0" + s);
    assert ("0x" + s)[2..] == s;
    UpperZero(s);
  }

  lemma PrefixTrimmed(s: string)
    requires Trimmed(s)
    ensures Trimmed("0x" + s) && Trimmed("x" + s) && Trimmed("M" + s) && Trimmed("0" + s)
  {
  }

  lemma UpperZero(s: string)
    ensures StripZeros(Upper("0" + s)) == StripZeros(Upper(s))
  {
    assert Upper("0" + s)[0] == '0' && Upper("0" + s)[1..] == Upper(s);
  }

  /** A value with the source it came from. */
  datatype Seen = Seen(value: string, source: string)

  /** One field: its text in SysInfo, and its entry in the authority file. */
  datatype Field = Field(raw: string, entry: Option<Seen>) {
    /** The source the text is taken to have; `_default_existing_source` without an entry. */
    function Source(key: string): string {
      if entry.Some? then entry.value.source
      else if raw == "" then "unknown"
      else if key in DERIVED then "sysinfo"
      else "itunes"
    }
  }

  /** One run's decision about one field; `seen` is None when the run has nothing for it. */
  function Decide(key: string, f: Field, seen: Option<Seen>): Field {
    if seen.None? then f
    else
      var new_ := seen.value;
      if f.raw == "" then Field(new_.value, seen)
      else if Normal(key, f.raw) == Normal(key, new_.value) then
        Field(f.raw, Some(Seen(f.raw, if Rank(new_.source) <= Rank(f.Source(key)) then new_.source else f.Source(key))))
      else if key in DERIVED || Rank(new_.source) <= Rank(f.Source(key)) then Field(new_.value, seen)
      else f
  }

  /** One run, with the file written and read back for the next. */
  function Run(key: string, f: Field, seen: Option<Seen>): Field {
    var decided := Decide(key, f, seen);
    Field(Strip(decided.raw), decided.entry)
  }

  function Runs(key: string, f: Field, seen: seq<Option<Seen>>): Field {
    if seen == [] then f else Run(key, Runs(key, f, seen[..|seen| - 1]), seen[|seen| - 1])
  }

  /** What has been seen, starting with what was there. */
  function History(key: string, f: Field, seen: seq<Option<Seen>>): seq<Seen> {
    if seen == [] then (if f.raw == "" then [] else [Seen(f.raw, f.Source(key))])
    else
      History(key, f, seen[..|seen| - 1]) + (if seen[|seen| - 1].Some? then [seen[|seen| - 1].value] else [])
  }

  /** The best-ranked, and of those the latest. */
  ghost predicate IsBest(history: seq<Seen>, best: Seen) {
    exists i :: BestAt(history, best, i)
  }

  ghost predicate BestAt(history: seq<Seen>, best: Seen, i: int) {
    && 0 <= i < |history| && history[i] == best
    && (forall j | 0 <= j < |history| :: Rank(best.source) <= Rank(history[j].source))
    && (forall j | i < j < |history| :: Rank(best.source) < Rank(history[j].source))
  }

  /** The latest of the best-ranked. */
  function Best(history: seq<Seen>): Seen
    requires history != []
  {
    var n := |history| - 1;
    if n == 0 || Rank(history[n].source) <= Rank(Best(history[..n]).source) then history[n] else Best(history[..n])
  }

  lemma {:induction false} BestIs(history: seq<Seen>)
    requires history != []
    ensures IsBest(history, Best(history))
  {
    hide Rank;
    var n := |history| - 1;
    if n == 0 {
      assert BestAt(history, Best(history), 0);
    } else {
      BestIs(history[..n]);
      assert history == history[..n] + [history[n]];
      BestGrows(history[..n], Best(history[..n]), history[n]);
    }
  }

  lemma BestOfMore(history: seq<Seen>, seen: Seen)
    ensures Best(history + [seen])
            == if history == [] || Rank(seen.source) <= Rank(Best(history).source) then seen else Best(history)
  {
    hide Rank;
    assert (history + [seen])[..|history|] == history;
  }

  lemma BestGrows(history: seq<Seen>, best: Seen, seen: Seen)
    requires IsBest(history, best)
    ensures IsBest(history + [seen], if Rank(seen.source) <= Rank(best.source) then seen else best)
  {
    hide Rank;
    var i :| BestAt(history, best, i);
    var all := history + [seen];
    if Rank(seen.source) <= Rank(best.source) {
      assert BestAt(all, seen, |history|);
    } else {
      assert BestAt(all, best, i);
    }
  }

  /** A field's entry, if it has one, says what SysInfo says. */
  ghost predicate Agrees(key: string, f: Field) {
    f.entry.Some? && f.raw != "" ==> Normal(key, f.entry.value.value) == Normal(key, f.raw)
  }

  /** The field holds the value of `best`, with its source. */
  ghost predicate Holds(key: string, f: Field, best: Seen) {
    f.raw != "" && Strip(f.raw) == f.raw && Normal(key, f.raw) == Normal(key, best.value) && f.Source(key) == best.source
  }

  /** A value that survives the file: not only spaces. */
  predicate Visible(seen: Option<Seen>) {
    seen.Some? ==> Strip(seen.value.value) != ""
  }

  /** A run that leaves nothing in the file: it stores a value of spaces alone, because nothing is
      held, or because it differs from the best value held and its source is as good. */
  predicate Resets(key: string, since: seq<Seen>, seen: Seen) {
    !Visible(Some(seen))
    && (since == []
        || (Rank(seen.source) <= Rank(Best(since).source) && Normal(key, Best(since).value) != Normal(key, "")))
  }

  /** What has been seen, starting with what was there, since the last run that left nothing. */
  function Since(key: string, f: Field, seen: seq<Option<Seen>>): seq<Seen> {
    if seen == [] then (if f.raw == "" then [] else [Seen(f.raw, f.Source(key))])
    else
      var before, last := Since(key, f, seen[..|seen| - 1]), seen[|seen| - 1];
      if last.None? then before else if Resets(key, before, last.value) then [] else before + [last.value]
  }

  lemma NormalStripped(key: string, raw: string)
    ensures Normal(key, Strip(raw)) == Normal(key, raw)
  {
    StripOnce(raw);
  }

  lemma BlankNormal(key: string, seen: Seen)
    requires !Visible(Some(seen))
    ensures Normal(key, seen.value) == Normal(key, "")
  {
    hide Normal;
    NormalStripped(key, seen.value);
  }

  /** One run keeps the field at the best value seen, or leaves nothing. */
  lemma RunHolds(key: string, f: Field, since: seq<Seen>, seen: Seen)
    requires key !in DERIVED && since != [] && Holds(key, f, Best(since)) && Agrees(key, f)
    ensures var after := Run(key, f, Some(seen));
      && Agrees(key, after)
      && if Resets(key, since, seen) then after.raw == ""
         else Holds(key, after, if Rank(seen.source) <= Rank(Best(since).source) then seen else Best(since))
  {
    hide Normal;
    hide Rank;
    hide Strip;
    hide Best;
    NormalStripped(key, seen.value);
    NormalStripped(key, f.raw);
    StripOnce(seen.value);
    if !Visible(Some(seen)) { BlankNormal(key, seen); }
  }

  lemma FirstHolds(key: string, f: Field, seen: Seen)
    requires f.raw == ""
    ensures var after := Run(key, f, Some(seen));
            Agrees(key, after) && if Visible(Some(seen)) then Holds(key, after, seen) else after.raw == ""
  {
    hide Normal;
    hide Rank;
    hide Strip;
    NormalStripped(key, seen.value);
    StripOnce(seen.value);
  }

  /** Over any sequence of runs: the field holds the normalised value of the best-ranked source seen
      since the last run that left nothing, the latest among equals, under that source's name; its
      entry says the same; and there is nothing in it exactly when nothing has been seen since. */
  lemma {:induction false} Converges(key: string, f: Field, seen: seq<Option<Seen>>)
    requires key !in DERIVED && Strip(f.raw) == f.raw && Agrees(key, f)
    ensures Agrees(key, Runs(key, f, seen)) && Strip(Runs(key, f, seen).raw) == Runs(key, f, seen).raw
    ensures var since, after := Since(key, f, seen), Runs(key, f, seen);
            if since == [] then after.raw == "" else IsBest(since, Best(since)) && Holds(key, after, Best(since))
  {
    hide Normal;
    hide Rank;
    hide Strip;
    hide IsBest;
    hide Run;
    hide Holds;
    hide Agrees;
    hide Visible;
    hide Best;
    if seen == [] {
      if f.raw != "" {
        StartHolds(key, f);
        BestIs([Seen(f.raw, f.Source(key))]);
        BestOfMore([], Seen(f.raw, f.Source(key)));
        assert [] + [Seen(f.raw, f.Source(key))] == [Seen(f.raw, f.Source(key))];
      }
    } else {
      var front, last := seen[..|seen| - 1], seen[|seen| - 1];
      Converges(key, f, front);
      var before, since := Runs(key, f, front), Since(key, f, front);
      RunStripped(key, before, last);
      if last.None? {
        NothingSeen(key, before);
      } else {
        BestIs(since + [last.value]);
        BestOfMore(since, last.value);
        if since == [] {
          FirstHolds(key, before, last.value);
        } else {
          RunHolds(key, before, since, last.value);
        }
      }
    }
  }

  /** Two values that a field cannot tell apart: the same normalised text, from the same source. */
  predicate Same(key: string, a: Seen, b: Seen) {
    Normal(key, a.value) == Normal(key, b.value) && a.source == b.source
  }

  /** Exactly when the field holds the best of everything that was ever seen: something has been seen
      since the last run that left nothing, and the best of it is as good as the best of all. */
  lemma BestOfAllIff(key: string, f: Field, seen: seq<Option<Seen>>)
    requires key !in DERIVED && Strip(f.raw) == f.raw && Agrees(key, f) && History(key, f, seen) != []
    ensures Holds(key, Runs(key, f, seen), Best(History(key, f, seen)))
            <==> var since := Since(key, f, seen); since != [] && Same(key, Best(since), Best(History(key, f, seen)))
  {
    hide Normal;
    hide Strip;
    hide IsBest;
    hide Runs;
    hide Best;
    hide History;
    hide Since;
    Converges(key, f, seen);
  }

  /** Without a run that left nothing, what has been seen since is everything. */
  lemma {:induction false} NothingReset(key: string, f: Field, seen: seq<Option<Seen>>)
    requires forall i | 0 <= i < |seen| && seen[i].Some? :: !Resets(key, Since(key, f, seen[..i]), seen[i].value)
    ensures Since(key, f, seen) == History(key, f, seen)
  {
    hide Resets;
    if seen != [] {
      var front := seen[..|seen| - 1];
      forall i | 0 <= i < |front| && front[i].Some? ensures !Resets(key, Since(key, f, front[..i]), front[i].value) {
        assert front[..i] == seen[..i];
      }
      NothingReset(key, f, front);
    }
  }

  /** Values with something other than spaces in them never reset a field that has anything. */
  lemma VisibleHolds(key: string, f: Field, seen: seq<Option<Seen>>)
    requires key !in DERIVED && Strip(f.raw) == f.raw && Agrees(key, f) && forall s | s in seen :: Visible(s)
    ensures var history := History(key, f, seen);
            if history == [] then Runs(key, f, seen).raw == ""
            else IsBest(history, Best(history)) && Holds(key, Runs(key, f, seen), Best(history))
  {
    hide Normal;
    hide Strip;
    hide Rank;
    hide IsBest;
    hide Runs;
    hide Best;
    hide Holds;
    hide Agrees;
    hide History;
    hide Since;
    forall i | 0 <= i < |seen| && seen[i].Some? ensures !Resets(key, Since(key, f, seen[..i]), seen[i].value) {
      assert Visible(seen[i]);
    }
    NothingReset(key, f, seen);
    Converges(key, f, seen);
  }

  lemma StartHolds(key: string, f: Field)
    requires f.raw != "" && Strip(f.raw) == f.raw
    ensures Holds(key, f, Seen(f.raw, f.Source(key)))
  {
  }

  lemma RunStripped(key: string, f: Field, seen: Option<Seen>)
    ensures Strip(Run(key, f, seen).raw) == Run(key, f, seen).raw
  {
    StripOnce(Decide(key, f, seen).raw);
  }

  /** A run with nothing for the field leaves it alone. */
  lemma NothingSeen(key: string, f: Field)
    requires Strip(f.raw) == f.raw
    ensures Run(key, f, None) == f
  {
  }

  /** A derived field always takes the value seen last, whatever its source. */
  /** A value found again: its text stays, and of the source that found it and the one it had the better is
      noted. Without a note a derived field counts as read from the file, any other as written by iTunes. */
  lemma FoundAgain(key: string, f: Field, seen: Seen)
    requires f.raw != "" && f.entry.None? && Normal(key, f.raw) == Normal(key, seen.value)
    ensures var had := if key in {"ModelFamily", "Generation", "Capacity", "Color", "USBProductID"} then "sysinfo" else "itunes";
            Run(key, f, Some(seen)) == Field(Strip(f.raw), Some(Seen(f.raw, if Rank(seen.source) <= Rank(had) then seen.source else had)))
  {
    hide Normal;
    hide Rank;
  }

  lemma {:induction false} DerivedIsLatest(key: string, f: Field, seen: seq<Option<Seen>>, last: Seen)
    requires key in DERIVED && Strip(f.raw) == f.raw && Visible(Some(last))
    ensures Normal(key, Run(key, Runs(key, f, seen), Some(last)).raw) == Normal(key, last.value)
  {
    hide Normal;
    hide Rank;
    hide Strip;
    NormalStripped(key, last.value);
    NormalStripped(key, Runs(key, f, seen).raw);
  }

  /** A value of spaces alone is written as nothing: whatever its source, the next value seen takes
      its place, however bad that one's source is. */
  lemma BlankIsForgotten(key: string, f: Field, blank: Seen, next: Seen)
    requires f.raw == "" && blank.value != "" && Strip(blank.value) == "" && Visible(Some(next))
    ensures Runs(key, f, [Some(blank), Some(next)]) == Field(Strip(next.value), Some(next))
  {
    hide Normal;
    hide Rank;
    hide Strip;
    var seen := [Some(blank), Some(next)];
    assert seen[..|seen| - 1] == [Some(blank)];
    var one: seq<Option<Seen>> := [Some(blank)];
    assert one[..|one| - 1] == [];
    assert Runs(key, f, one) == Run(key, f, Some(blank));
    assert Runs(key, f, seen) == Run(key, Runs(key, f, one), Some(next));
  }

  /** The authority file's entries by key. */
  type Entries = map<string, Seen>

  /** The state of one field in both files. */
  function FieldOf(fields: Fields, entries: Entries, key: string): Field {
    Field(Raw(fields, key), if key in entries then Some(entries[key]) else None)
  }

  /** `_detect_external_modification`: every source becomes a file source. */
  function Distrusted(entries: Entries): Entries {
    map key | key in entries :: Seen(entries[key].value, "sysinfo")
  }

  /** After a change from outside, every value that has an entry is kept, and believed like one from the
      file; a field without an entry has the source it had. */
  lemma DistrustedAt(fields: Fields, entries: Entries, key: string)
    ensures var was, now := FieldOf(fields, entries, key), FieldOf(fields, Distrusted(entries), key);
      && now.raw == was.raw
      && (was.entry.Some? ==> now.entry.Some? && now.entry.value.value == was.entry.value.value && now.Source(key) == "sysinfo")
      && (was.entry.None? ==> now.entry.None? && now.Source(key) == was.Source(key))
  {
  }

  /** What a run found: text by key, already formatted, with its source. */
  type Gathered = map<string, Seen>

  function SeenFor(gathered: Gathered, key: string): Option<Seen> {
    if key in gathered then Some(gathered[key]) else None
  }

  /** One field of the loop of `_update_sysinfo_guarded`. */
  method DecideField(key: string, f: Field, found: Seen) returns (r: Field, rewritten: bool)
    ensures r == Decide(key, f, Some(found))
    ensures !rewritten ==> r.raw == f.raw
    ensures r.entry.Some? || r == f
  {
    hide Normal;
    hide Rank;
    var source := f.Source(key);
    r, rewritten := f, false;
    if f.raw == "" {
      r, rewritten := Field(found.value, Some(found)), true;
    } else if Normal(key, f.raw) == Normal(key, found.value) {
      var best := if Rank(found.source) <= Rank(source) then found.source else source;
      r := Field(f.raw, Some(Seen(f.raw, best)));
    } else if key in DERIVED || Rank(found.source) <= Rank(source) {
      r, rewritten := Field(found.value, Some(found)), true;
    }
  }

  /** One turn of the loop: the field of `key` is decided in both files, every other one is kept. */
  method ReconcileField(key: string, fields: Fields, entries: Entries, gathered: Gathered)
    returns (updated: Fields, newEntries: Entries, rewritten: bool)
    ensures FieldOf(updated, newEntries, key) == Decide(key, FieldOf(fields, entries, key), SeenFor(gathered, key))
    ensures forall k | k != key :: FieldOf(updated, newEntries, k) == FieldOf(fields, entries, k)
    ensures !rewritten ==> updated == fields
    ensures updated.Keys <= fields.Keys + {key}
  {
    hide Decide;
    updated, newEntries, rewritten := fields, entries, false;
    var f := FieldOf(fields, entries, key);
    NothingDecided(key, f);
    if key in gathered {
      var r, changed := DecideField(key, f, gathered[key]);
      if changed {
        updated, rewritten := updated[key := r.raw], true;
      }
      if r.entry.Some? {
        newEntries := newEntries[key := r.entry.value];
      }
    }
  }

  /** The loop of `_update_sysinfo_guarded` over the mapped fields. */
  method Reconcile(keys: seq<string>, existing: Fields, entries: Entries, gathered: Gathered)
    returns (updated: Fields, newEntries: Entries, changed: bool)
    requires forall i, j | 0 <= i < j < |keys| :: keys[i] != keys[j]
    ensures forall key | key in keys ::
      FieldOf(updated, newEntries, key) == Decide(key, FieldOf(existing, entries, key), SeenFor(gathered, key))
    ensures forall key | key !in keys :: FieldOf(updated, newEntries, key) == FieldOf(existing, entries, key)
    ensures !changed ==> updated == existing
    ensures forall key | key in updated :: key in existing || key in keys
  {
    hide Decide;
    hide FieldOf;
    updated, newEntries, changed := existing, entries, false;
    for i := 0 to |keys|
      invariant forall key | key in keys[..i] ::
        FieldOf(updated, newEntries, key) == Decide(key, FieldOf(existing, entries, key), SeenFor(gathered, key))
      invariant forall key | key !in keys[..i] :: FieldOf(updated, newEntries, key) == FieldOf(existing, entries, key)
      invariant !changed ==> updated == existing
      invariant forall key | key in updated :: key in existing || key in keys
    {
      var key := keys[i];
      assert keys[..i + 1] == keys[..i] + [key] && key !in keys[..i];
      var rewritten: bool;
      updated, newEntries, rewritten := ReconcileField(key, updated, newEntries, gathered);
      changed := changed || rewritten;
    }
    assert keys[..|keys|] == keys;
  }

  lemma DecideRaw(key: string, f: Field, found: Seen)
    ensures Decide(key, f, Some(found)).raw == f.raw || Decide(key, f, Some(found)).raw == found.value
  {
    hide Normal;
    hide Rank;
  }

  lemma NothingDecided(key: string, f: Field)
    ensures Decide(key, f, None) == f
  {
  }

  /** The two files of a device. */
  datatype Device = Device(sysinfo: string, entries: Entries)

  /** The state of one field as the next run will read it. */
  function On(d: Device, key: string): Field {
    FieldOf(Parse(d.sysinfo), d.entries, key)
  }

  /** Values that fit on a line each. */
  predicate OneLine(gathered: Gathered) {
    forall key | key in gathered :: '\n' !in gathered[key].value
  }

  /** One identification run: every mapped field is decided, and every other one is kept. */
  ghost predicate IsUpdate(before: Device, gathered: Gathered, after: Device) {
    && (forall key | key in MAPPED :: On(after, key) == Run(key, On(before, key), SeenFor(gathered, key)))
    && (forall key | key !in MAPPED :: On(after, key) == On(before, key))
  }

  /** `_update_sysinfo_guarded`: reads both files, decides every mapped field, and writes them back. */
  method UpdateSysInfo(before: Device, tampered: bool, gathered: Gathered) returns (after: Device)
    requires OneLine(gathered)
    ensures IsUpdate(before.(entries := if tampered then Distrusted(before.entries) else before.entries), gathered, after)
  {
    hide Decide;
    hide Parse;
    hide Print;
    hide PlainKey;
    hide Strip;
    MappedDistinct();
    ParsedFieldsPlain(before.sysinfo);
    var existing := ReadSysInfo(before.sysinfo);
    var entries := if tampered then Distrusted(before.entries) else before.entries;
    var updated, newEntries, changed := Reconcile(MAPPED, existing, entries, gathered);
    if !changed {
      after := Device(before.sysinfo, newEntries);
      forall key ensures Strip(Raw(existing, key)) == Raw(existing, key) { PlainStripped(existing, key); }
    } else {
      forall key | key in updated ensures PlainKey(key) && '\n' !in updated[key] {
        assert updated[key] == FieldOf(updated, newEntries, key).raw;
        if key in MAPPED && key in gathered {
          DecideRaw(key, FieldOf(existing, entries, key), gathered[key]);
        } else if key in MAPPED {
          NothingDecided(key, FieldOf(existing, entries, key));
        }
      }
      var order := Keys.Listed(updated.Keys);
      var text := WriteSysInfo(updated, order);
      after := Device(text, newEntries);
      forall key ensures Raw(Parse(text), key) == Strip(Raw(updated, key)) {
        FileRoundTrip(updated, order, key);
      }
      forall key | key !in MAPPED ensures Raw(Parse(text), key) == Raw(existing, key) {
        assert FieldOf(updated, newEntries, key) == FieldOf(existing, entries, key);
        PlainStripped(existing, key);
      }
    }
  }

  lemma ParsedFieldsPlain(text: string)
    ensures Plain(Parse(text))
  {
    ParsedPlain(map[], text);
  }

  lemma PlainStripped(fields: Fields, key: string)
    requires Plain(fields)
    ensures Strip(Raw(fields, key)) == Raw(fields, key)
  {
    hide PlainKey;
    assert Strip("") == "";
  }

  /** Letters only. */
  predicate Letters(s: string) {
    forall i | 0 <= i < |s| :: 'A' <= s[i] <= 'Z' || 'a' <= s[i] <= 'z'
  }

  lemma LettersPlain(s: string)
    requires Letters(s)
    ensures PlainKey(s)
  {
  }

  lemma MappedLetters()
    ensures forall i | 0 <= i < |MAPPED| :: Letters(MAPPED[i])
  {
  }

  /** The mapped keys are distinct, and each can stand on a line. */
  lemma MappedDistinct()
    ensures forall i, j | 0 <= i < j < |MAPPED| :: MAPPED[i] != MAPPED[j]
    ensures forall key | key in MAPPED :: PlainKey(key)
  {
    hide PlainKey;
    MappedLetters();
    forall key | key in MAPPED ensures PlainKey(key) {
      LettersPlain(key);
    }
  }

  /** A device over a sequence of runs between which nobody else writes its files. */
  ghost predicate AreRuns(devices: seq<Device>, gathered: seq<Gathered>) {
    |devices| == |gathered| + 1 && forall i | 0 <= i < |gathered| :: RunAt(devices, gathered, i)
  }

  ghost predicate RunAt(devices: seq<Device>, gathered: seq<Gathered>, i: nat)
    requires i < |gathered| && |devices| == |gathered| + 1
  {
    IsUpdate(devices[i], gathered[i], devices[i + 1])
  }

  /** What the first `n` runs saw of one field. */
  function SeenBy(gathered: seq<Gathered>, key: string): seq<Option<Seen>> {
    if gathered == [] then [] else SeenBy(gathered[..|gathered| - 1], key) + [SeenFor(gathered[|gathered| - 1], key)]
  }

  lemma {:induction false} FieldOverRuns(devices: seq<Device>, gathered: seq<Gathered>, key: string, n: nat)
    requires AreRuns(devices, gathered) && key in MAPPED && n <= |gathered|
    ensures On(devices[n], key) == Runs(key, On(devices[0], key), SeenBy(gathered[..n], key))
  {
    hide Run;
    hide On;
    if n > 0 {
      FieldOverRuns(devices, gathered, key, n - 1);
      assert RunAt(devices, gathered, n - 1);
      assert gathered[..n][..n - 1] == gathered[..n - 1];
      var before, now := SeenBy(gathered[..n - 1], key), SeenBy(gathered[..n], key);
      assert now == before + [SeenFor(gathered[n - 1], key)];
      assert now[..|now| - 1] == before;
    } else {
      assert gathered[..0] == [];
    }
  }

  /** Over any number of runs on a device, with the files written and read back each time: a field
      that is not derived holds the value of the best-ranked source seen since the last run that left
      nothing in it, the latest among equals, under that source's name, and the authority entry stands
      for the same value. That is the best of everything ever seen exactly when what was seen since
      is as good. */
  lemma DeviceConverges(devices: seq<Device>, gathered: seq<Gathered>, key: string, n: nat)
    requires AreRuns(devices, gathered) && key in MAPPED && key !in DERIVED && n <= |gathered|
    requires Agrees(key, On(devices[0], key))
    ensures Agrees(key, On(devices[n], key))
    ensures var seen := SeenBy(gathered[..n], key);
      var since, history := Since(key, On(devices[0], key), seen), History(key, On(devices[0], key), seen);
      && (if since == [] then On(devices[n], key).raw == ""
          else IsBest(since, Best(since)) && Holds(key, On(devices[n], key), Best(since)))
      && (history != [] ==>
            (Holds(key, On(devices[n], key), Best(history)) <==> since != [] && Same(key, Best(since), Best(history))))
  {
    hide Agrees;
    hide Holds;
    hide IsBest;
    hide Parse;
    hide Strip;
    hide Best;
    hide Since;
    hide History;
    hide Same;
    var f, seen := On(devices[0], key), SeenBy(gathered[..n], key);
    FieldOverRuns(devices, gathered, key, n);
    ParsedFieldsPlain(devices[0].sysinfo);
    PlainStripped(Parse(devices[0].sysinfo), key);
    Converges(key, f, seen);
    if History(key, f, seen) != [] {
      BestOfAllIff(key, f, seen);
    }
  }

  /** After a change from outside no entry is believed more than the file: a field that has one takes the
      value found by any source at least as good as the file, however good its own source was; what a
      less reliable source finds is not taken for a field that is not derived. */
  lemma AfterTampering(before: Device, gathered: Gathered, after: Device, key: string)
    requires IsUpdate(before.(entries := Distrusted(before.entries)), gathered, after)
    requires key in MAPPED && key in gathered && key in before.entries && On(before, key).raw != ""
    ensures Rank(gathered[key].source) <= Rank("sysinfo") ==> Normal(key, On(after, key).raw) == Normal(key, gathered[key].value)
    ensures Rank(gathered[key].source) > Rank("sysinfo") && key !in DERIVED ==> Normal(key, On(after, key).raw) == Normal(key, On(before, key).raw)
  {
    hide Normal;
    hide Rank;
    hide Parse;
    NormalStripped(key, On(before, key).raw);
    NormalStripped(key, gathered[key].value);
    DistrustedAt(Parse(before.sysinfo), before.entries, key);
  }
}
