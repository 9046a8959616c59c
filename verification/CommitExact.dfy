/** Exactly when committing staged playlists keeps what the library showed. */
module CommitExact {
  import opened Outcomes
  import opened PlaylistRows
  import opened PlaylistOverlay

  /** A staged row with its dataset, as `save_user_playlist` leaves it. */
  predicate Plain(row: Row) {
    Id(row) != 0 && Dataset(row) in {2, 3, 5} && Described(row) == row && Counted(row) == row
  }

  /** Committing keeps what is shown, for every id and dataset. */
  ghost predicate Keeps(b: Buckets, staged: seq<Row>) {
    forall id, dataset :: ViewAt(View(CommitAll(b, staged), []), id, dataset) == ViewAt(View(b, staged), id, dataset)
  }

  /** The first row with this id, whatever its tag. */
  function First(rows: seq<Row>, id: int): Option<nat> {
    if rows == [] then None
    else
      var before := First(rows[..|rows| - 1], id);
      if before.Some? then before else if Id(rows[|rows| - 1]) == id then Some(|rows| - 1) else None
  }

  lemma {:induction false} FirstSpec(rows: seq<Row>, id: int)
    ensures var i := First(rows, id);
      && (i.Some? ==> i.value < |rows| && Id(rows[i.value]) == id)
      && (forall j | 0 <= j < (if i.Some? then i.value else |rows|) :: Id(rows[j]) != id)
  {
    if rows != [] {
      FirstSpec(rows[..|rows| - 1], id);
      assert forall j | 0 <= j < |rows| - 1 :: rows[..|rows| - 1][j] == rows[j];
    }
  }

  lemma FirstIs(rows: seq<Row>, id: int, i: nat)
    requires i < |rows| && Id(rows[i]) == id && forall j | 0 <= j < i :: Id(rows[j]) != id
    ensures First(rows, id) == Some(i)
  {
    hide First;
    FirstSpec(rows, id);
  }

  lemma FirstNone(rows: seq<Row>, id: int)
    requires forall j | 0 <= j < |rows| :: Id(rows[j]) != id
    ensures First(rows, id) == None
  {
    hide First;
    FirstSpec(rows, id);
  }

  /** What the bucket of a dataset shows for an id. */
  function Held(rows: seq<Row>, id: int, dataset: int): Option<Row> {
    FirstSpec(rows, id);
    var i := First(rows, id);
    if i.Some? then Some(Content(WithOrigin(rows[i.value], dataset))) else None
  }

  lemma HeldShown(rows: seq<Row>, id: int, dataset: int)
    ensures ViewAt(ShowBucket(rows, dataset), id, dataset) == Held(rows, id, dataset)
  {
    hide Index;
    hide First;
    hide WithOrigin;
    hide ShowBucket;
    var shown := ShowBucket(rows, dataset);
    ShowLength(rows, dataset);
    forall j | 0 <= j < |rows| ensures Id(shown[j]) == Id(rows[j]) && Dataset(shown[j]) == dataset {
      WithOriginKey(rows[j], dataset);
    }
    FirstSpec(rows, id);
    var i := First(rows, id);
    if i.Some? {
      IndexIs(shown, id, {dataset}, i.value);
    } else {
      IndexNone(shown, id, {dataset});
    }
  }

  lemma HeldView(b: Buckets, id: int, dataset: int)
    ensures ViewAt(ShowAll(b), id, dataset) == Held(b.At(dataset), id, dataset)
  {
    hide Find;
    hide ShowAll;
    ShownIn(b, id, dataset);
    HeldShown(b.At(dataset), id, dataset);
  }

  /** The row that committing acts on in a bucket, if any, is the one that the bucket shows. */
  predicate ActsOnShown(rows: seq<Row>, row: Row) {
    Index(rows, Id(row), {0, Dataset(row)}) == First(rows, Id(row))
  }

  /** What a bucket shows once that row has been removed from it. */
  function Left(rows: seq<Row>, row: Row, dataset: int): Option<Row> {
    FirstSpec(rows, Id(row));
    var i := First(rows, Id(row));
    if ActsOnShown(rows, row) && i.Some? then Held(rows[i.value + 1..], Id(row), dataset) else Held(rows, Id(row), dataset)
  }

  /** What a bucket shows for the id of a row that was filed in it, or elsewhere. */
  lemma FiledShows(rows: seq<Row>, row: Row, dataset: int)
    ensures Held(FileIn(rows, row, true), Id(row), dataset)
            == if ActsOnShown(rows, row) then Some(Content(WithOrigin(row, dataset))) else Held(rows, Id(row), dataset)
    ensures Held(FileIn(rows, row, false), Id(row), dataset) == Left(rows, row, dataset)
  {
    hide Index;
    hide First;
    hide WithOrigin;
    hide Content;
    var id, tags := Id(row), {0, Dataset(row)};
    FirstSpec(rows, id);
    IndexSpec(rows, id, tags);
    var first, acted := First(rows, id), Index(rows, id, tags);
    var filed, removed := FileIn(rows, row, true), FileIn(rows, row, false);
    if acted.None? {
      if first.None? {
        FirstIs(filed, id, |rows|);
      } else {
        FirstIs(filed, id, first.value);
      }
    } else {
      FirstIs(filed, id, first.value);
      if first.value < acted.value {
        FirstIs(removed, id, first.value);
      } else {
        RestFirst(rows, id, acted.value, dataset);
      }
    }
  }

  lemma RestFirst(rows: seq<Row>, id: int, i: nat, dataset: int)
    requires i < |rows| && forall j | 0 <= j < i :: Id(rows[j]) != id
    ensures Held(rows[..i] + rows[i + 1..], id, dataset) == Held(rows[i + 1..], id, dataset)
  {
    hide First;
    hide WithOrigin;
    hide Content;
    var rest, all := rows[i + 1..], rows[..i] + rows[i + 1..];
    FirstSpec(rest, id);
    var k := First(rest, id);
    assert forall j | 0 <= j < |rest| :: all[i + j] == rest[j];
    if k.Some? {
      forall j | 0 <= j < i + k.value ensures Id(all[j]) != id {
        if j >= i { assert all[j] == rest[j - i]; }
      }
      FirstIs(all, id, i + k.value);
    } else {
      forall j | 0 <= j < |all| ensures Id(all[j]) != id {
        if j >= i { assert all[j] == rest[j - i]; }
      }
      FirstNone(all, id);
    }
  }

  /** No other id is touched. */
  lemma OthersShown(rows: seq<Row>, row: Row, here: bool, id: int, dataset: int)
    requires id != Id(row)
    ensures Held(FileIn(rows, row, here), id, dataset) == Held(rows, id, dataset)
  {
    hide Index;
    hide First;
    hide WithOrigin;
    hide Content;
    IndexSpec(rows, Id(row), {0, Dataset(row)});
    FirstSpec(rows, id);
    var first, acted, after := First(rows, id), Index(rows, Id(row), {0, Dataset(row)}), FileIn(rows, row, here);
    if acted.Some? && !here {
      assert forall j | 0 <= j < |after| :: after[j] == if j < acted.value then rows[j] else rows[j + 1];
      if first.Some? {
        FirstIs(after, id, if first.value < acted.value then first.value else first.value - 1);
      } else {
        FirstNone(after, id);
      }
    } else if first.Some? {
      FirstIs(after, id, first.value);
    } else {
      FirstNone(after, id);
    }
  }

  /** A row as it is filed. */
  function Filed(row: Row): Row {
    SetDefault(row, RESULT_KEY, Text(ResultKeyFor(Target(row))))
  }

  lemma CommitFiles(b: Buckets, row: Row)
    requires Plain(row) && !Truthy(row, MASTER)
    ensures CommitOne(b, row) == File(b, Filed(row), Target(row))
    ensures Id(Filed(row)) == Id(row) && Dataset(Filed(row)) == Dataset(row)
    ensures Content(WithOrigin(Filed(row), Dataset(row))) == Content(row)
    ensures Target(row) == if Dataset(row) == 2 && IsPodcast(row) then 3 else Dataset(row)
  {
    hide File;
    hide WithOrigin;
    hide Content;
    FiledContent(row);
  }

  lemma FiledContent(row: Row)
    requires Plain(row)
    ensures Content(WithOrigin(Filed(row), Dataset(row))) == Content(row)
  {
  }

  /** The bucket of dataset `e` shows after the commit what was shown with the row on top: where the
      row is filed, it takes the place of what is shown or says the same already; anywhere else, what
      is removed is not what was to be shown. */
  predicate BucketKeeps(rows: seq<Row>, row: Row, e: int) {
    var wanted := if e == Dataset(row) then Some(Content(row)) else Held(rows, Id(row), e);
    if e != Target(row) then Left(rows, row, e) == wanted
    else if ActsOnShown(rows, row) then wanted == Some(Content(WithOrigin(Filed(row), e)))
    else wanted == Held(rows, Id(row), e)
  }

  lemma BucketAfter(rows: seq<Row>, row: Row, e: int)
    requires Plain(row) && !Truthy(row, MASTER)
    ensures Held(FileIn(rows, Filed(row), Target(row) == e), Id(row), e)
            == (if e == Dataset(row) then Some(Content(row)) else Held(rows, Id(row), e))
            <==> BucketKeeps(rows, row, e)
  {
    hide Index;
    hide First;
    hide WithOrigin;
    hide Content;
    hide FileIn;
    hide Held;
    hide CommitOne;
    hide Target;
    CommitFiles(Buckets([], [], []), row);
    FiledShows(rows, Filed(row), e);
    hide Filed;
  }

  /** For one staged row, over buckets whose rows may carry any tag or none: exactly when the commit
      keeps the view. A master row must be what is shown already; any other must leave every bucket
      showing what it should. */
  lemma CommitKeepsViewExactly(b: Buckets, row: Row)
    requires Plain(row)
    ensures Keeps(b, [row])
            <==> if Truthy(row, MASTER) then ViewAt(ShowAll(b), Id(row), Dataset(row)) == Some(Content(row))
                 else BucketKeeps(b.regular, row, 2) && BucketKeeps(b.podcast, row, 3) && BucketKeeps(b.smart, row, 5)
  {
    hide ShowAll;
    hide CommitOne;
    hide Lay;
    hide ViewAt;
    hide BucketKeeps;
    hide Truthy;
    hide Held;
    hide FileIn;
    hide Target;
    hide Filed;
    hide Described;
    OneStaged(b, row);
    var id, own := Id(row), Dataset(row);
    forall i, e ensures ViewAt(View(b, [row]), i, e) == if i == id && e == own then Some(Content(row)) else ViewAt(ShowAll(b), i, e) {
      LaidAt(b, row, i, e);
    }
    if Truthy(row, MASTER) {
      MasterRowDropped(b, row);
      assert Keeps(b, [row]) ==> ViewAt(View(CommitAll(b, [row]), []), id, own) == ViewAt(View(b, [row]), id, own);
    } else {
      var after := CommitOne(b, row);
      CommitFiles(b, row);
      forall i, e ensures ViewAt(ShowAll(after), i, e) == Held(after.At(e), i, e) && ViewAt(ShowAll(b), i, e) == Held(b.At(e), i, e) {
        HeldView(b, i, e);
        HeldView(after, i, e);
      }
      forall i, e | i != id ensures Held(after.At(e), i, e) == Held(b.At(e), i, e) {
        if e in {2, 3, 5} { OthersShown(b.At(e), Filed(row), Target(row) == e, i, e); }
      }
      forall e | e in {2, 3, 5}
        ensures Held(after.At(e), id, e) == (if e == own then Some(Content(row)) else Held(b.At(e), id, e))
                <==> BucketKeeps(b.At(e), row, e)
      {
        BucketAfter(b.At(e), row, e);
      }
      KeepsByBucket(b, row, after);
      assert b.At(2) == b.regular && b.At(3) == b.podcast && b.At(5) == b.smart;
      assert (forall e | e in {2, 3, 5} :: BucketKeeps(b.At(e), row, e))
             <==> BucketKeeps(b.At(2), row, 2) && BucketKeeps(b.At(3), row, 3) && BucketKeeps(b.At(5), row, 5);
    }
  }

  lemma KeepsByBucket(b: Buckets, row: Row, after: Buckets)
    requires Dataset(row) in {2, 3, 5} && CommitAll(b, [row]) == after
    requires forall i, e :: ViewAt(View(b, [row]), i, e)
                            == if i == Id(row) && e == Dataset(row) then Some(Content(row)) else ViewAt(ShowAll(b), i, e)
    requires forall i, e :: ViewAt(ShowAll(after), i, e) == Held(after.At(e), i, e) && ViewAt(ShowAll(b), i, e) == Held(b.At(e), i, e)
    requires forall i, e | i != Id(row) :: Held(after.At(e), i, e) == Held(b.At(e), i, e)
    ensures Keeps(b, [row])
            <==> forall e | e in {2, 3, 5} ::
                   Held(after.At(e), Id(row), e) == if e == Dataset(row) then Some(Content(row)) else Held(b.At(e), Id(row), e)
  {
    hide ShowAll;
    hide CommitAll;
    hide ViewAt;
    hide Content;
    hide Held;
    hide First;
    assert View(after, []) == ShowAll(after);
    if Keeps(b, [row]) {
      forall e | e in {2, 3, 5}
        ensures Held(after.At(e), Id(row), e) == if e == Dataset(row) then Some(Content(row)) else Held(b.At(e), Id(row), e)
      {
        assert ViewAt(View(CommitAll(b, [row]), []), Id(row), e) == ViewAt(View(b, [row]), Id(row), e);
      }
    }
    if forall e | e in {2, 3, 5} ::
         Held(after.At(e), Id(row), e) == if e == Dataset(row) then Some(Content(row)) else Held(b.At(e), Id(row), e)
    {
      forall i, e ensures ViewAt(View(CommitAll(b, [row]), []), i, e) == ViewAt(View(b, [row]), i, e) {
        if i == Id(row) && e !in {2, 3, 5} {
          assert after.At(e) == b.At(e) == [];
        }
      }
    }
  }

  /** Every row of the bucket carries the bucket's number or none, and at most one has the id. */
  ghost predicate OwnOrNone(rows: seq<Row>, dataset: int, id: int) {
    && (forall i | 0 <= i < |rows| :: Dataset(rows[i]) in {0, dataset})
    && (forall i, j | 0 <= i < j < |rows| :: Id(rows[i]) != id || Id(rows[j]) != id)
  }

  predicate HasUntagged(rows: seq<Row>, id: int) {
    exists i :: 0 <= i < |rows| && Id(rows[i]) == id && Dataset(rows[i]) == 0
  }

  lemma UntaggedBucket(rows: seq<Row>, row: Row, e: int)
    requires Plain(row) && e in {2, 3, 5} && OwnOrNone(rows, e, Id(row))
    ensures e == Dataset(row) == Target(row) && !Truthy(row, MASTER) ==> BucketKeeps(rows, row, e)
    ensures e != Dataset(row) == Target(row) ==> (BucketKeeps(rows, row, e) <==> !HasUntagged(rows, Id(row)))
    ensures e == Dataset(row) != Target(row) ==> !BucketKeeps(rows, row, e)
    ensures e != Dataset(row) && HasUntagged(rows, Id(row)) ==> Held(rows, Id(row), e).Some? && Left(rows, row, e) == None
  {
    hide Index;
    hide First;
    hide WithOrigin;
    hide Content;
    hide Target;
    hide Described;
    hide Truthy;
    var id, tags := Id(row), {0, Dataset(row)};
    if e == Target(row) && !Truthy(row, MASTER) { CommitFiles(Buckets([], [], []), row); }
    FirstSpec(rows, id);
    IndexSpec(rows, id, tags);
    var i := First(rows, id);
    if i.Some? {
      var rest := rows[i.value + 1..];
      forall j | 0 <= j < |rest| ensures Id(rest[j]) != id { assert rest[j] == rows[i.value + 1 + j]; }
      FirstNone(rest, id);
    }
  }

  /** A bucket row that the commit takes for the committed one and removes. */
  lemma UntaggedGone(b: Buckets, row: Row, e: int)
    requires Plain(row) && !Truthy(row, MASTER) && e in {2, 3, 5} && e != Dataset(row) && e != Target(row)
    requires OwnOrNone(b.At(e), e, Id(row)) && HasUntagged(b.At(e), Id(row))
    ensures ViewAt(View(b, [row]), Id(row), e).Some? && ViewAt(View(CommitAll(b, [row]), []), Id(row), e) == None
  {
    hide ShowAll;
    hide CommitOne;
    hide Lay;
    hide ViewAt;
    hide Held;
    hide FileIn;
    hide Left;
    hide Described;
    hide HasUntagged;
    hide OwnOrNone;
    hide Truthy;
    hide Target;
    var after := CommitOne(b, row);
    OneStaged(b, row);
    LaidAt(b, row, Id(row), e);
    CommitFiles(b, row);
    HeldView(b, Id(row), e);
    HeldView(after, Id(row), e);
    UntaggedBucket(b.At(e), row, e);
    FiledShows(b.At(e), Filed(row), e);
    SameLeft(b.At(e), row, e);
    NothingLaid(ShowAll(after));
  }

  lemma SameLeft(rows: seq<Row>, row: Row, e: int)
    requires Plain(row)
    ensures Left(rows, Filed(row), e) == Left(rows, row, e)
  {
    hide First;
    hide Index;
    hide Held;
  }

  /** Where bucket rows carry their own dataset or none: a bucket row without one is taken for the row
      of any dataset, and the commit removes it. So committing a row keeps the view exactly when no
      other bucket has an untagged row with its id, and the row is no regular playlist that counts as
      a podcast. */
  lemma UntaggedRowLostIff(b: Buckets, row: Row)
    requires Plain(row) && !Truthy(row, MASTER)
    requires OwnOrNone(b.regular, 2, Id(row)) && OwnOrNone(b.podcast, 3, Id(row)) && OwnOrNone(b.smart, 5, Id(row))
    ensures Keeps(b, [row])
            <==> !(Dataset(row) == 2 && IsPodcast(row))
                 && forall e | e in {2, 3, 5} && e != Dataset(row) :: !HasUntagged(b.At(e), Id(row))
    ensures forall e | e in {2, 3, 5} && e != Dataset(row) && e != Target(row) && HasUntagged(b.At(e), Id(row)) ::
              ViewAt(View(b, [row]), Id(row), e).Some? && ViewAt(View(CommitAll(b, [row]), []), Id(row), e) == None
  {
    hide View;
    hide CommitAll;
    hide ViewAt;
    hide BucketKeeps;
    hide Keeps;
    hide Target;
    hide HasUntagged;
    hide OwnOrNone;
    hide Truthy;
    hide Described;
    CommitKeepsViewExactly(b, row);
    CommitFiles(b, row);
    UntaggedBucket(b.regular, row, 2);
    UntaggedBucket(b.podcast, row, 3);
    UntaggedBucket(b.smart, row, 5);
    assert b.At(2) == b.regular && b.At(3) == b.podcast && b.At(5) == b.smart;
    forall e | e in {2, 3, 5} && e != Dataset(row) && e != Target(row) && HasUntagged(b.At(e), Id(row))
      ensures ViewAt(View(b, [row]), Id(row), e).Some? && ViewAt(View(CommitAll(b, [row]), []), Id(row), e) == None
    {
      UntaggedGone(b, row, e);
    }
  }

  /** A staged row that does not change the view when it is committed among others. */
  ghost predicate Harmless(b: Buckets, row: Row) {
    if Truthy(row, MASTER) then ViewAt(ShowAll(b), Id(row), Dataset(row)) == Some(Content(row))
    else !(Dataset(row) == 2 && IsPodcast(row))
  }

  /** What the view shows for the key of a staged row. */
  lemma {:induction false} StagedShown(rows: seq<Row>, staged: seq<Row>, k: nat)
    requires OncePerKey(staged) && k < |staged| && forall row | row in staged :: Id(row) != 0 && Dataset(row) != 0
    ensures Find(LayAll(rows, staged), Id(staged[k]), Dataset(staged[k])) == Some(staged[k])
  {
    hide Lay;
    hide Find;
    hide Id;
    hide Dataset;
    var front, last := staged[..|staged| - 1], staged[|staged| - 1];
    LayAt(LayAll(rows, front), last, Id(staged[k]), Dataset(staged[k]));
    if k < |front| {
      assert forall i | 0 <= i < |front| :: front[i] == staged[i];
      assert forall row | row in front :: row in staged;
      StagedShown(rows, front, k);
    }
  }

  lemma {:induction false} NotStagedShown(rows: seq<Row>, staged: seq<Row>, id: int, dataset: int)
    requires forall row | row in staged :: Id(row) != 0 && Dataset(row) != 0 && (Id(row) != id || Dataset(row) != dataset)
    ensures Find(LayAll(rows, staged), id, dataset) == Find(rows, id, dataset)
  {
    hide Lay;
    hide Find;
    hide Id;
    hide Dataset;
    if staged != [] {
      var front, last := staged[..|staged| - 1], staged[|staged| - 1];
      assert forall row | row in front :: row in staged;
      assert last in staged;
      NotStagedShown(rows, front, id, dataset);
      LayAt(LayAll(rows, front), last, id, dataset);
    }
  }

  /** The rows that a commit does not pass over. */
  function Ordinary(staged: seq<Row>): seq<Row> {
    if staged == [] then []
    else
      Ordinary(staged[..|staged| - 1])
        + (if Truthy(staged[|staged| - 1], MASTER) then [] else [staged[|staged| - 1]])
  }

  lemma {:induction false} OrdinaryIn(staged: seq<Row>)
    ensures forall row :: row in Ordinary(staged) <==> row in staged && !Truthy(row, MASTER)
    ensures OncePerKey(staged) ==> OncePerKey(Ordinary(staged))
  {
    hide Truthy;
    hide Id;
    hide Dataset;
    if staged != [] {
      var front, last := staged[..|staged| - 1], staged[|staged| - 1];
      OrdinaryIn(front);
      assert forall i | 0 <= i < |front| :: front[i] == staged[i];
      assert forall row :: row in staged <==> row in front || row == last;
      if OncePerKey(staged) {
        forall row | row in front ensures Id(row) != Id(last) || Dataset(row) != Dataset(last) {
          var i :| 0 <= i < |front| && front[i] == row;
        }
      }
    }
  }

  lemma {:induction false} CommitOrdinary(b: Buckets, staged: seq<Row>)
    ensures CommitAll(b, Ordinary(staged)) == CommitAll(b, staged)
  {
    hide Truthy;
    hide File;
    hide WithKnownOrigin;
    if staged != [] {
      var front, last := staged[..|staged| - 1], staged[|staged| - 1];
      CommitOrdinary(b, front);
      if Truthy(last, MASTER) {
        assert Ordinary(staged) == Ordinary(front);
      } else {
        assert Ordinary(staged)[..|Ordinary(staged)| - 1] == Ordinary(front);
      }
    }
  }

  /** Without regular playlists that count as podcasts, one key of the view after the commit. */
  lemma SettledKey(b: Buckets, staged: seq<Row>, id: int, dataset: int)
    requires b.OwnTags() && OncePerKey(staged) && forall row | row in staged :: Plain(row)
    requires forall row | row in staged && !Truthy(row, MASTER) :: !(Dataset(row) == 2 && IsPodcast(row))
    ensures ViewAt(View(CommitAll(b, staged), []), id, dataset) == ViewAt(View(b, staged), id, dataset)
            <==> forall row | row in staged && Id(row) == id && Dataset(row) == dataset :: Harmless(b, row)
  {
    hide CommitAll;
    hide LayAll;
    hide ShowAll;
    hide Find;
    hide Truthy;
    hide Described;
    hide Content;
    hide IsPodcast;
    hide Id;
    hide Dataset;
    hide Ordinary;
    var kept := Ordinary(staged);
    OrdinaryIn(staged);
    CommitOrdinary(b, staged);
    CommitKeepsView(b, kept, id, dataset);
    if row :| row in staged && Id(row) == id && Dataset(row) == dataset {
      var k :| 0 <= k < |staged| && staged[k] == row;
      StagedShown(ShowAll(b), staged, k);
      forall other | other in staged && Id(other) == id && Dataset(other) == dataset ensures other == row {
        var j :| 0 <= j < |staged| && staged[j] == other;
      }
      if row in kept {
        var j :| 0 <= j < |kept| && kept[j] == row;
        StagedShown(ShowAll(b), kept, j);
      } else {
        NotStagedShown(ShowAll(b), kept, id, dataset);
      }
    } else {
      NotStagedShown(ShowAll(b), staged, id, dataset);
      NotStagedShown(ShowAll(b), kept, id, dataset);
    }
  }

  /** All rows are tagged as regular, and at most one has the id. */
  ghost predicate RegularOnce(rows: seq<Row>, id: int) {
    && (forall i | 0 <= i < |rows| :: Dataset(rows[i]) == 2)
    && (forall i, j | 0 <= i < j < |rows| :: Id(rows[i]) != id || Id(rows[j]) != id)
  }

  lemma FileRegular(rows: seq<Row>, row: Row, here: bool, id: int)
    requires RegularOnce(rows, id) && (here ==> Dataset(row) == 2 && Id(row) != id)
    ensures RegularOnce(FileIn(rows, row, here), id)
    ensures (forall r | r in rows :: Id(r) != id) ==> forall r | r in FileIn(rows, row, here) :: Id(r) != id
    ensures !here && Id(row) == id && Dataset(row) == 2 ==> forall r | r in FileIn(rows, row, here) :: Id(r) != id
  {
    hide Index;
    hide Id;
    hide Dataset;
    IndexSpec(rows, Id(row), {0, Dataset(row)});
    var i, after := Index(rows, Id(row), {0, Dataset(row)}), FileIn(rows, row, here);
    if i.Some? && !here {
      assert forall j | 0 <= j < |after| :: after[j] == if j < i.value then rows[j] else rows[j + 1];
    }
  }

  /** A staged regular playlist that counts as a podcast ends up in the podcast bucket, and nothing
      with its id is left among the regular ones. */
  lemma {:induction false} RegularGone(b: Buckets, staged: seq<Row>, k: nat)
    requires k < |staged| && RegularOnce(b.regular, Id(staged[k]))
    requires OncePerKey(staged) && forall row | row in staged :: Plain(row)
    requires Dataset(staged[k]) == 2 && IsPodcast(staged[k]) && !Truthy(staged[k], MASTER)
    ensures forall r | r in CommitAll(b, staged).regular :: Id(r) != Id(staged[k])
  {
    RegularAfter(b, staged, k, |staged|);
    assert staged[..|staged|] == staged;
  }

  lemma {:induction false} RegularAfter(b: Buckets, staged: seq<Row>, k: nat, n: nat)
    requires k < |staged| && RegularOnce(b.regular, Id(staged[k]))
    requires OncePerKey(staged) && n <= |staged| && forall row | row in staged :: Plain(row)
    requires Dataset(staged[k]) == 2 && IsPodcast(staged[k]) && !Truthy(staged[k], MASTER)
    ensures RegularOnce(CommitAll(b, staged[..n]).regular, Id(staged[k]))
    ensures k < n ==> forall r | r in CommitAll(b, staged[..n]).regular :: Id(r) != Id(staged[k])
  {
    hide FileIn;
    hide Described;
    hide IsPodcast;
    hide Truthy;
    hide RegularOnce;
    hide Id;
    hide Dataset;
    hide Counted;
    hide Completed;
    hide Target;
    hide Filed;
    var id := Id(staged[k]);
    if n == 0 {
      assert CommitAll(b, staged[..n]) == b;
    } else {
      var row, front := staged[n - 1], staged[..n - 1];
      assert staged[..n][..n - 1] == front && row in staged;
      RegularAfter(b, staged, k, n - 1);
      var before := CommitAll(b, front);
      if Truthy(row, MASTER) {
        PassedOver(before, row);
      } else {
        CommitFiles(before, row);
        if Target(row) == 2 { assert Id(row) != id || Dataset(row) != 2 || n - 1 == k; }
        FileRegular(before.regular, Filed(row), Target(row) == 2, id);
      }
    }
  }

  lemma PassedOver(b: Buckets, row: Row)
    requires Truthy(row, MASTER)
    ensures CommitOne(b, row) == b
  {
  }

  /** For any number of staged rows, one for each key: the commit keeps the view exactly when every
      one of them is harmless. */
  lemma CommitKeepsAllIff(b: Buckets, staged: seq<Row>)
    requires b.OwnTags() && forall i, j | 0 <= i < j < |b.regular| :: Id(b.regular[i]) != Id(b.regular[j])
    requires OncePerKey(staged) && forall row | row in staged :: Plain(row)
    ensures Keeps(b, staged) <==> forall row | row in staged :: Harmless(b, row)
  {
    hide CommitAll;
    hide View;
    hide ViewAt;
    hide Described;
    hide IsPodcast;
    hide Truthy;
    hide Harmless;
    hide Id;
    hide Dataset;
    if row :| row in staged && !Truthy(row, MASTER) && Dataset(row) == 2 && IsPodcast(row) {
      var k :| 0 <= k < |staged| && staged[k] == row;
      PodcastBreaks(b, staged, k);
      assert !Harmless(b, row) by { BadPodcast(b, row); }
    } else {
      forall id, dataset
        ensures ViewAt(View(CommitAll(b, staged), []), id, dataset) == ViewAt(View(b, staged), id, dataset)
                <==> forall row | row in staged && Id(row) == id && Dataset(row) == dataset :: Harmless(b, row)
      {
        SettledKey(b, staged, id, dataset);
      }
      if Keeps(b, staged) {
        forall row | row in staged ensures Harmless(b, row) {
          var id, dataset := Id(row), Dataset(row);
          assert ViewAt(View(CommitAll(b, staged), []), id, dataset) == ViewAt(View(b, staged), id, dataset);
        }
      }
    }
  }

  lemma BadPodcast(b: Buckets, row: Row)
    requires !Truthy(row, MASTER) && Dataset(row) == 2 && IsPodcast(row)
    ensures !Harmless(b, row)
  {
  }

  lemma PodcastBreaks(b: Buckets, staged: seq<Row>, k: nat)
    requires b.OwnTags() && forall i, j | 0 <= i < j < |b.regular| :: Id(b.regular[i]) != Id(b.regular[j])
    requires OncePerKey(staged) && k < |staged| && forall row | row in staged :: Plain(row)
    requires Dataset(staged[k]) == 2 && IsPodcast(staged[k]) && !Truthy(staged[k], MASTER)
    ensures !Keeps(b, staged)
  {
    hide CommitAll;
    hide LayAll;
    hide ShowAll;
    hide Find;
    hide Described;
    hide IsPodcast;
    hide Truthy;
    hide Content;
    hide Id;
    hide Dataset;
    hide First;
    hide WithOrigin;
    var id, after := Id(staged[k]), CommitAll(b, staged);
    assert forall i | 0 <= i < |b.regular| :: b.regular[i] in b.regular;
    RegularGone(b, staged, k);
    FirstNone(after.regular, id);
    HeldView(after, id, 2);
    StagedShown(ShowAll(b), staged, k);
    assert View(after, []) == ShowAll(after) by { NothingLaid(ShowAll(after)); }
    assert ViewAt(View(after, []), id, 2) == None;
    assert ViewAt(View(b, staged), id, 2) == Some(Content(staged[k]));
  }

  lemma NothingLaid(rows: seq<Row>)
    ensures LayAll(rows, []) == rows
  {
  }
}
