/** Playlist rows of the library cache, and where each of them belongs. */
module PlaylistRows {
  import opened Outcomes

  datatype Value =
    | Num(n: int)
    | Text(s: string)
    | Flag(b: bool)
    | Items(items: seq<int>)
    | Origins(origins: seq<Origin>)

  /** One database location of a playlist that the display shows merged. */
  datatype Origin = Origin(dataset: int, key: string)

  type Row = map<string, Value>

  const ID := "playlist_id"
  const DATASET := "_mhsd_dataset_type"
  const RESULT_KEY := "_mhsd_result_key"
  const SOURCE := "_source"
  const CHILD_COUNT := "mhip_child_count"
  const ITEMS := "items"
  const MASTER := "master_flag"
  const PODCAST := "podcast_flag"
  const SMART_TYPE := "mhsd5_type"
  const IS_NEW := "_isNew"
  const TITLE := "Title"
  const DESCRIPTION := "playlist_description"
  const PROPERTY := "playlist_property_plist"
  const ALBUM := "Album"
  const DISPLAY_ORIGINS := "_mhsd_display_origins"
  const DISPLAY_ONLY: set<string> := {DISPLAY_ORIGINS, "_mhsd_display_types", "_mhsd_display_merged", "_mhsd_display_label"}

  /** `int(row.get(key, 0) or 0)` */
  function NumAt(row: Row, key: string): int {
    if key !in row then 0
    else match row[key]
      case Num(n) => n
      case Flag(b) => if b then 1 else 0
      case _ => 0
  }

  function TextAt(row: Row, key: string): Option<string> {
    if key in row && row[key].Text? then Some(row[key].s) else None
  }

  /** Whether `row.get(key)` counts as true. */
  predicate Truthy(row: Row, key: string) {
    key in row && match row[key]
      case Num(n) => n != 0
      case Text(s) => s != ""
      case Flag(b) => b
      case Items(items) => items != []
      case Origins(origins) => origins != []
  }

  function Id(row: Row): int {
    NumAt(row, ID)
  }

  function Dataset(row: Row): int {
    NumAt(row, DATASET)
  }

  function SetDefault(row: Row, key: string, value: Value): Row {
    if key in row then row else row[key := value]
  }

  function ResultKeyFor(dataset: int): string {
    if dataset == 3 then "mhlp_podcast" else if dataset == 5 then "mhlp_smart" else "mhlp"
  }

  /** `_playlist_source_for_dataset` */
  function SourceFor(row: Row, dataset: int): string {
    if dataset == 5 then (if NumAt(row, SMART_TYPE) != 0 then "category" else "smart") else "regular"
  }

  /** `playlist_description_from_row`; the decoded property list is its description text. */
  function DescriptionOf(row: Row): string {
    if TextAt(row, DESCRIPTION).Some? then TextAt(row, DESCRIPTION).value
    else if TextAt(row, PROPERTY).Some? && TextAt(row, PROPERTY).value != "" then TextAt(row, PROPERTY).value
    else if TextAt(row, ALBUM).Some? then TextAt(row, ALBUM).value
    else ""
  }

  /** `normalize_playlist_description` */
  function Described(row: Row): Row {
    var description := DescriptionOf(row);
    if description != "" || DESCRIPTION in row then row[DESCRIPTION := Text(description)][ALBUM := Text(description)] else row
  }

  lemma DescribedOnce(row: Row)
    ensures Described(Described(row)) == Described(row)
  {
  }

  /** `_playlist_with_origin`: a row as its bucket shows it. */
  function WithOrigin(row: Row, dataset: int): Row {
    var tagged := row[DATASET := Num(dataset)][RESULT_KEY := Text(ResultKeyFor(dataset))];
    Described(tagged[SOURCE := Text(SourceFor(tagged, dataset))])
  }

  /** `len(items)` as the child count, where items are given. */
  function Counted(row: Row): Row {
    if ITEMS in row && row[ITEMS].Items? then row[CHILD_COUNT := Num(|row[ITEMS].items|)] else row
  }

  /** The three playlist lists of the database. */
  datatype Buckets = Buckets(regular: seq<Row>, podcast: seq<Row>, smart: seq<Row>) {
    function At(dataset: int): seq<Row> {
      if dataset == 2 then regular else if dataset == 3 then podcast else if dataset == 5 then smart else []
    }

    /** Every row carries the number of its own bucket. */
    ghost predicate OwnTags() {
      && (forall row | row in regular :: Dataset(row) == 2)
      && (forall row | row in podcast :: Dataset(row) == 3)
      && (forall row | row in smart :: Dataset(row) == 5)
    }
  }

  /** Index of the first row with this id and one of these tags. */
  function Index(rows: seq<Row>, id: int, tags: set<int>): Option<nat> {
    if rows == [] then None
    else
      var before := Index(rows[..|rows| - 1], id, tags);
      if before.Some? then before
      else if Id(rows[|rows| - 1]) == id && Dataset(rows[|rows| - 1]) in tags then Some(|rows| - 1)
      else None
  }

  lemma {:induction false} IndexSpec(rows: seq<Row>, id: int, tags: set<int>)
    ensures var i := Index(rows, id, tags);
      && (i.Some? ==> i.value < |rows| && Id(rows[i.value]) == id && Dataset(rows[i.value]) in tags)
      && (forall j | 0 <= j < (if i.Some? then i.value else |rows|) :: !(Id(rows[j]) == id && Dataset(rows[j]) in tags))
  {
    if rows != [] {
      IndexSpec(rows[..|rows| - 1], id, tags);
      assert forall j | 0 <= j < |rows| - 1 :: rows[..|rows| - 1][j] == rows[j];
    }
  }

  lemma IndexIs(rows: seq<Row>, id: int, tags: set<int>, i: nat)
    requires i < |rows| && Id(rows[i]) == id && Dataset(rows[i]) in tags
    requires forall j | 0 <= j < i :: !(Id(rows[j]) == id && Dataset(rows[j]) in tags)
    ensures Index(rows, id, tags) == Some(i)
  {
    hide Index;
    IndexSpec(rows, id, tags);
  }

  lemma IndexNone(rows: seq<Row>, id: int, tags: set<int>)
    requires forall j | 0 <= j < |rows| :: !(Id(rows[j]) == id && Dataset(rows[j]) in tags)
    ensures Index(rows, id, tags) == None
  {
    hide Index;
    IndexSpec(rows, id, tags);
  }

  method FindIndex(rows: seq<Row>, id: int, tags: set<int>) returns (r: Option<nat>)
    ensures r == Index(rows, id, tags)
  {
    hide Index;
    for i := 0 to |rows|
      invariant forall j | 0 <= j < i :: !(Id(rows[j]) == id && Dataset(rows[j]) in tags)
    {
      if Id(rows[i]) == id && Dataset(rows[i]) in tags {
        IndexIs(rows, id, tags, i);
        return Some(i);
      }
    }
    IndexNone(rows, id, tags);
    return None;
  }

  /** The first row shown for an id and dataset. */
  function Find(rows: seq<Row>, id: int, dataset: int): Option<Row> {
    var i := Index(rows, id, {dataset});
    IndexSpec(rows, id, {dataset});
    if i.Some? then Some(rows[i.value]) else None
  }

  /** A row without the notes on where it was read from. */
  function Content(row: Row): Row {
    row - {SOURCE, RESULT_KEY}
  }

  function OriginOf(row: Row, dataset: int): Origin {
    Origin(if Dataset(row) != 0 then Dataset(row) else dataset,
           match TextAt(row, RESULT_KEY)
           case Some(key) => if key != "" then key else ResultKeyFor(dataset)
           case None => ResultKeyFor(dataset))
  }

  function OriginsIn(rows: seq<Row>, dataset: int, id: int): set<Origin> {
    set row | row in rows && Id(row) == id :: OriginOf(row, dataset)
  }

  /** `_playlist_live_origins`, without repetitions: where rows with this id are. */
  function LiveOrigins(data: Option<Buckets>, id: int): set<Origin> {
    if data.None? || id == 0 then {}
    else OriginsIn(data.value.regular, 2, id) + OriginsIn(data.value.podcast, 3, id) + OriginsIn(data.value.smart, 5, id)
  }

  lemma Singleton<T>(s: set<T>)
    requires |s| == 1
    ensures exists x :: x in s && s == {x}
  {
    var x :| x in s;
    assert |s - {x}| == 0;
    assert s == {x};
  }

  predicate IsEdit(row: Row) {
    IS_NEW in row && row[IS_NEW] == Flag(false)
  }

  /** `_playlist_with_known_edit_origin`: an edit without its origin takes the only one there is,
      and is refused when there is none or more than one. */
  function WithKnownOrigin(row: Row, data: Option<Buckets>): Option<Row> {
    if Dataset(row) != 0 || !IsEdit(row) then Some(row)
    else
      var live := LiveOrigins(data, Id(row));
      if |live| != 1 then None
      else
        Singleton(live);
        var o :| o in live && live == {o};
        var located := row[DATASET := Num(o.dataset)][RESULT_KEY := Text(o.key)];
        Some(SetDefault(located, SOURCE, Text(SourceFor(located, o.dataset))))
  }

  /** `_is_ipod_category_playlist` */
  predicate IsCategory(row: Row) {
    if Dataset(row) != 0 then Dataset(row) == 5
    else TextAt(row, SOURCE) == Some("category") || NumAt(row, SMART_TYPE) != 0
  }

  predicate IsPodcast(row: Row) {
    NumAt(row, PODCAST) == 1 || TextAt(row, SOURCE) == Some("podcast")
  }

  /** The bucket that `commit_user_playlists` files a row in. */
  function Target(row: Row): int {
    if Dataset(row) == 3 then 3
    else if Dataset(row) == 5 || IsCategory(row) then 5
    else if IsPodcast(row) then 3
    else 2
  }

  /** `_find_live_playlist_for_origin` */
  function FindLive(data: Option<Buckets>, id: int, o: Origin): Option<Row> {
    if data.None? || id == 0 then None
    else
      var rows := if o.key == "mhlp" then data.value.regular
                  else if o.key == "mhlp_podcast" then data.value.podcast
                  else if o.key == "mhlp_smart" then data.value.smart
                  else [];
      var i := Index(rows, id, {0, o.dataset});
      IndexSpec(rows, id, {0, o.dataset});
      if i.Some? then Some(rows[i.value]) else None
  }

  /** The origin with its default result key, if its dataset is one a playlist can be in. */
  function Usable(o: Origin): Option<Origin> {
    if o.dataset !in {2, 3, 5} then None
    else Some(Origin(o.dataset, if o.key != "" then o.key else ResultKeyFor(o.dataset)))
  }

  function UsableIn(origins: seq<Origin>): set<Origin> {
    if origins == [] then {}
    else
      var o := Usable(origins[|origins| - 1]);
      UsableIn(origins[..|origins| - 1]) + (if o.Some? then {o.value} else {})
  }

  /** The edit applied to the row at one origin. */
  function EditAt(row: Row, data: Option<Buckets>, o: Origin): Row {
    var live := FindLive(data, Id(row), o);
    var edited := (if live.Some? then live.value else map[]) + (row - DISPLAY_ONLY);
    var tagged := edited[ID := Num(Id(row))][DATASET := Num(o.dataset)][RESULT_KEY := Text(o.key)];
    Described(tagged[SOURCE := Text(SourceFor(tagged, o.dataset))])
  }

  /** `_display_origin_save_targets`: one row for each distinct origin. */
  function DisplayTargets(row: Row, data: Option<Buckets>, origins: seq<Origin>): seq<Row> {
    if origins == [] then []
    else
      var n := |origins| - 1;
      var o := Usable(origins[n]);
      DisplayTargets(row, data, origins[..n])
        + (if o.Some? && o.value !in UsableIn(origins[..n]) then [EditAt(row, data, o.value)] else [])
  }

  function RowFor(row: Row, dataset: int): Row {
    var tagged := row[DATASET := Num(dataset)][RESULT_KEY := Text(ResultKeyFor(dataset))];
    Described(SetDefault(tagged, SOURCE, Text(SourceFor(tagged, dataset))))
  }

  /** The rows that `save_user_playlist` stages for an edit; none when it is refused. */
  function SaveTargets(row: Row, data: Option<Buckets>): seq<Row> {
    var origins := if DISPLAY_ORIGINS in row && row[DISPLAY_ORIGINS].Origins? then row[DISPLAY_ORIGINS].origins else [];
    var shown := if |origins| > 1 then DisplayTargets(row, data, origins) else [];
    if shown != [] then shown
    else
      var resolved := WithKnownOrigin(row, data);
      if resolved.None? then []
      else if !IsEdit(row) && data.Some? && data.value.podcast != [] && Dataset(resolved.value) in {0, 2}
              && !IsCategory(resolved.value) && !IsPodcast(resolved.value)
      then [RowFor(resolved.value, 2), RowFor(resolved.value, 3)]
      else [resolved.value]
  }
}
