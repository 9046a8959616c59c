/** What the notes on a playlist row say: its description, its source, and where an edit belongs. */
module PlaylistNotes {
  import opened Outcomes
  import opened PlaylistRows
  import opened PlaylistSaves

  /** `s` is what a row says about itself: its description, even an empty one; without one, the first of
      its property list and its album that is not empty. */
  predicate Describes(row: Row, s: string) {
    if DESCRIPTION in row && row[DESCRIPTION].Text? then row[DESCRIPTION] == Text(s)
    else if PROPERTY in row && row[PROPERTY].Text? && row[PROPERTY] != Text("") then row[PROPERTY] == Text(s)
    else if ALBUM in row && row[ALBUM].Text? then row[ALBUM] == Text(s)
    else s == ""
  }

  /** What a row says about itself goes under both names; a row that says nothing and has no description
      is left as it is. */
  lemma DescribedNotes(row: Row, s: string)
    requires Describes(row, s)
    ensures if s != "" || DESCRIPTION in row
            then Field(Described(row), DESCRIPTION) == Some(Text(s)) && Field(Described(row), ALBUM) == Some(Text(s))
            else Described(row) == row
  {
  }

  /** A row as a bucket shows it: tagged with the bucket's number and key; a smart playlist is a category
      or not by its type; every field but the notes is the row's own. */
  lemma ShownNotes(row: Row, dataset: int, s: string, key: string)
    requires Describes(row, s)
    ensures var shown := WithOrigin(row, dataset);
      && Dataset(shown) == dataset
      && Field(shown, RESULT_KEY) == Some(Text(match dataset case 3 => "mhlp_podcast" case 5 => "mhlp_smart" case _ => "mhlp"))
      && Field(shown, SOURCE) == Some(Text(if dataset != 5 then "regular" else if NumAt(row, SMART_TYPE) == 0 then "smart" else "category"))
      && (if s != "" || DESCRIPTION in row
          then Field(shown, DESCRIPTION) == Some(Text(s)) && Field(shown, ALBUM) == Some(Text(s))
          else Field(shown, DESCRIPTION) == None && Field(shown, ALBUM) == Field(row, ALBUM))
      && (key !in {DATASET, RESULT_KEY, SOURCE, DESCRIPTION, ALBUM} ==> Field(shown, key) == Field(row, key))
  {
    hide Described;
    var tagged := row[DATASET := Num(dataset)][RESULT_KEY := Text(ResultKeyFor(dataset))];
    var noted := tagged[SOURCE := Text(SourceFor(tagged, dataset))];
    assert Describes(noted, s);
    DescribedNotes(noted, s);
    if key != DESCRIPTION && key != ALBUM { DescribedField(noted, key); }
    DescribedField(noted, DATASET);
    DescribedField(noted, RESULT_KEY);
    DescribedField(noted, SOURCE);
  }

  /** A live row with the id is at the origin: tagged with its dataset, or untagged in its bucket, and
      under its own key, if it has one. */
  ghost predicate LivesAt(data: Option<Buckets>, id: int, o: Origin) {
    data.Some? && id != 0 && exists d, row :: d in {2, 3, 5} && LivesIn(data.value, id, o, d, row)
  }

  ghost predicate LivesIn(b: Buckets, id: int, o: Origin, d: int, row: Row) {
    && row in b.At(d) && Id(row) == id
    && o.dataset == (if Dataset(row) != 0 then Dataset(row) else d)
    && (if TextAt(row, RESULT_KEY).Some? && row[RESULT_KEY] != Text("") then row[RESULT_KEY] == Text(o.key)
        else o.key == match d case 3 => "mhlp_podcast" case 5 => "mhlp_smart" case _ => "mhlp")
  }

  lemma OriginIs(row: Row, d: int, o: Origin)
    requires d in {2, 3, 5}
    ensures o == OriginOf(row, d)
            <==> (&& o.dataset == (if Dataset(row) != 0 then Dataset(row) else d)
                  && (if TextAt(row, RESULT_KEY).Some? && row[RESULT_KEY] != Text("") then row[RESULT_KEY] == Text(o.key)
                      else o.key == match d case 3 => "mhlp_podcast" case 5 => "mhlp_smart" case _ => "mhlp"))
  {
  }

  lemma LiveOriginIff(data: Option<Buckets>, id: int, o: Origin)
    ensures o in LiveOrigins(data, id) <==> LivesAt(data, id, o)
  {
    hide OriginOf;
    if o in LiveOrigins(data, id) {
      var b := data.value;
      var d :| d in {2, 3, 5} && o in OriginsIn(b.At(d), d, id);
      var row :| row in b.At(d) && Id(row) == id && o == OriginOf(row, d);
      OriginIs(row, d, o);
      assert LivesIn(b, id, o, d, row);
    }
    if LivesAt(data, id, o) {
      var d, row :| d in {2, 3, 5} && LivesIn(data.value, id, o, d, row);
      OriginIs(row, d, o);
      assert o in OriginsIn(data.value.At(d), d, id);
    }
  }

  /** The one place an id lives at, if it lives at exactly one. */
  ghost predicate OnlyAt(data: Option<Buckets>, id: int, o: Origin) {
    LivesAt(data, id, o) && forall p :: LivesAt(data, id, p) ==> p == o
  }

  lemma OneOriginIff(data: Option<Buckets>, id: int)
    ensures |LiveOrigins(data, id)| == 1 <==> exists o :: OnlyAt(data, id, o)
    ensures forall o | OnlyAt(data, id, o) :: LiveOrigins(data, id) == {o}
  {
    hide LivesAt;
    var live := LiveOrigins(data, id);
    hide LiveOrigins;
    forall o ensures o in live <==> LivesAt(data, id, o) { LiveOriginIff(data, id, o); }
    if |live| == 1 {
      Singleton(live);
      var o :| o in live && live == {o};
      assert OnlyAt(data, id, o);
    }
    if o :| OnlyAt(data, id, o) {
      assert live == {o};
    }
  }

  /** An edit that does not say where it belongs is put where its id lives, if that is one place only;
      any other row is taken as it is. */
  lemma KnownOriginIff(row: Row, data: Option<Buckets>, o: Origin, key: string)
    ensures var known := WithKnownOrigin(row, data);
      if Dataset(row) != 0 || IS_NEW !in row || row[IS_NEW] != Flag(false) then known == Some(row)
      else
        && (known.Some? <==> exists p :: OnlyAt(data, Id(row), p))
        && (OnlyAt(data, Id(row), o) ==>
              && Dataset(known.value) == o.dataset && Field(known.value, RESULT_KEY) == Some(Text(o.key))
              && (key !in {DATASET, RESULT_KEY, SOURCE} || (key == SOURCE && SOURCE in row) ==>
                    Field(known.value, key) == Field(row, key)))
  {
    hide LiveOrigins;
    hide OnlyAt;
    hide SourceFor;
    OneOriginIff(data, Id(row));
  }

  /** What an edit is laid over: the first live row under the origin's key with the id that is tagged with
      the origin's dataset or not at all. */
  lemma FoundLiveIff(data: Option<Buckets>, id: int, o: Origin)
    ensures var rows := if data.None? then []
                        else match o.key
                             case "mhlp" => data.value.regular
                             case "mhlp_podcast" => data.value.podcast
                             case "mhlp_smart" => data.value.smart
                             case _ => [];
      && (FindLive(data, id, o).Some? <==> id != 0 && exists i :: Carries(rows, i, id, o.dataset))
      && (FindLive(data, id, o).Some? ==>
            exists i :: Carries(rows, i, id, o.dataset) && FindLive(data, id, o).value == rows[i]
                        && forall j | 0 <= j < i :: !Carries(rows, j, id, o.dataset))
  {
    if data.Some? {
      var rows := match o.key
                  case "mhlp" => data.value.regular
                  case "mhlp_podcast" => data.value.podcast
                  case "mhlp_smart" => data.value.smart
                  case _ => [];
      IndexSpec(rows, id, {0, o.dataset});
      var i := Index(rows, id, {0, o.dataset});
      if i.Some? {
        assert Carries(rows, i.value, id, o.dataset);
      }
    }
  }

  predicate Carries(rows: seq<Row>, i: int, id: int, dataset: int) {
    0 <= i < |rows| && Id(rows[i]) == id && (Dataset(rows[i]) == dataset || Dataset(rows[i]) == 0)
  }

  /** Which dataset a row without a usable tag is filed in. */
  lemma TargetIff(row: Row)
    ensures Target(row) == 3
            <==> Dataset(row) == 3
                 || (Dataset(row) != 5 && (NumAt(row, PODCAST) == 1 || Field(row, SOURCE) == Some(Text("podcast")))
                     && (Dataset(row) == 0 ==> Field(row, SOURCE) != Some(Text("category")) && NumAt(row, SMART_TYPE) == 0))
    ensures Target(row) == 5
            <==> Dataset(row) == 5
                 || (Dataset(row) == 0 && (Field(row, SOURCE) == Some(Text("category")) || NumAt(row, SMART_TYPE) != 0))
    ensures Target(row) in {2, 3, 5}
  {
  }

  /** A new playlist as it is staged for a dataset: tagged with it, and its source noted if it has none. */
  lemma NewNotes(row: Row, dataset: int, s: string)
    requires Describes(row, s)
    ensures var made := RowFor(row, dataset);
      && Dataset(made) == dataset
      && Field(made, RESULT_KEY) == Some(Text(match dataset case 3 => "mhlp_podcast" case 5 => "mhlp_smart" case _ => "mhlp"))
      && Field(made, SOURCE)
         == (if SOURCE in row then Some(row[SOURCE])
             else Some(Text(if dataset != 5 then "regular" else if NumAt(row, SMART_TYPE) == 0 then "smart" else "category")))
      && (s != "" || DESCRIPTION in row ==> Field(made, DESCRIPTION) == Some(Text(s)) && Field(made, ALBUM) == Some(Text(s)))
      && (s == "" && DESCRIPTION !in row ==> Field(made, DESCRIPTION) == None && Field(made, ALBUM) == Field(row, ALBUM))
  {
    hide Described;
    var tagged := row[DATASET := Num(dataset)][RESULT_KEY := Text(ResultKeyFor(dataset))];
    var noted := SetDefault(tagged, SOURCE, Text(SourceFor(tagged, dataset)));
    assert Describes(noted, s);
    DescribedNotes(noted, s);
    DescribedField(noted, DATASET);
    DescribedField(noted, RESULT_KEY);
    DescribedField(noted, SOURCE);
  }

  /** The notes on an edit at one origin follow from the row there with the edit laid over it. */
  lemma EditNotes(row: Row, data: Option<Buckets>, o: Origin, merged: Row, s: string)
    requires merged == (if FindLive(data, Id(row), o).Some? then FindLive(data, Id(row), o).value else map[]) + (row - DISPLAY_ONLY)
    requires Describes(merged, s)
    ensures var edited := EditAt(row, data, o);
      && Field(edited, SOURCE)
         == Some(Text(if o.dataset != 5 then "regular" else if NumAt(merged, SMART_TYPE) == 0 then "smart" else "category"))
      && (s != "" || DESCRIPTION in merged ==> Field(edited, DESCRIPTION) == Some(Text(s)) && Field(edited, ALBUM) == Some(Text(s)))
      && (s == "" && DESCRIPTION !in merged ==> Field(edited, DESCRIPTION) == None && Field(edited, ALBUM) == Field(merged, ALBUM))
  {
    hide Described;
    hide FindLive;
    var tagged := merged[ID := Num(Id(row))][DATASET := Num(o.dataset)][RESULT_KEY := Text(o.key)];
    var noted := tagged[SOURCE := Text(SourceFor(tagged, o.dataset))];
    assert Describes(noted, s);
    DescribedNotes(noted, s);
    DescribedField(noted, SOURCE);
  }

  /** The origins an edit is saved at: those of a known dataset, under its own key where they name none. */
  lemma UsableIff(origins: seq<Origin>, x: Origin)
    ensures x in UsableIn(origins)
            <==> x.dataset in {2, 3, 5}
                 && exists i :: 0 <= i < |origins| && origins[i].dataset == x.dataset
                      && x.key == if origins[i].key != "" then origins[i].key
                                  else match x.dataset case 3 => "mhlp_podcast" case 5 => "mhlp_smart" case _ => "mhlp"
  {
    UsableOrigins(origins, x);
  }
}
