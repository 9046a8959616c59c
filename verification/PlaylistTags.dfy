/** New playlists: staged without a dataset, and counted under the one they will be filed in. */
module PlaylistTags {
  import opened PlaylistRows
  import opened PlaylistOverlay

  /** No row of the database has this id. */
  ghost predicate Unused(b: Buckets, id: int) {
    forall row | row in b.regular || row in b.podcast || row in b.smart :: Id(row) != id
  }

  /** One staged row for each key, and an id of its own for each new one. */
  ghost predicate Apart(b: Buckets, staged: seq<Row>) {
    && OncePerKey(staged)
    && (forall row | row in staged && DATASET !in row :: Unused(b, Id(row)))
    && (forall row, other | row in staged && other in staged && DATASET !in row && DATASET in other :: Id(row) != Id(other))
  }

  lemma ShownTagged(rows: seq<Row>, dataset: int, shown: Row)
    requires shown in ShowBucket(rows, dataset)
    ensures DATASET in shown && exists row :: row in rows && Id(row) == Id(shown)
  {
    hide WithOrigin;
    hide ShowBucket;
    ShowLength(rows, dataset);
    var i :| 0 <= i < |rows| && ShowBucket(rows, dataset)[i] == shown;
    WithOriginTagged(rows[i], dataset);
    assert rows[i] in rows;
  }

  lemma WithOriginTagged(row: Row, dataset: int)
    ensures DATASET in WithOrigin(row, dataset) && Id(WithOrigin(row, dataset)) == Id(row)
  {
  }

  lemma InShown(b: Buckets, shown: Row)
    requires shown in ShowAll(b)
    ensures DATASET in shown && !Unused(b, Id(shown))
  {
    hide ShowBucket;
    if shown in ShowBucket(b.regular, 2) {
      ShownTagged(b.regular, 2, shown);
    } else if shown in ShowBucket(b.podcast, 3) {
      ShownTagged(b.podcast, 3, shown);
    } else {
      ShownTagged(b.smart, 5, shown);
    }
  }

  lemma {:induction false} InView(rows: seq<Row>, staged: seq<Row>, x: Row)
    requires x in LayAll(rows, staged)
    ensures x in rows || x in staged
  {
    hide Index;
    if staged != [] {
      var front, row := staged[..|staged| - 1], staged[|staged| - 1];
      if x != row {
        IndexSpec(LayAll(rows, front), Id(row), {Dataset(row)});
        InView(rows, front, x);
      }
    }
  }

  lemma TagKeepsId(row: Row)
    ensures Id(Tagged(row)) == Id(row)
  {
  }

  /** Laying a row on top and then counting new rows as filed is the same the other way round, if no
      other row has the id of a new one. */
  lemma TagLaid(rows: seq<Row>, row: Row)
    requires DATASET !in row ==> Dataset(row) == 0 && forall x | x in rows :: Id(x) != Id(row)
    requires DATASET in row ==> forall x | x in rows && DATASET !in x :: Id(x) != Id(row)
    ensures TagAll(Lay(rows, row)) == Lay(TagAll(rows), Tagged(row))
  {
    hide Index;
    hide Target;
    var tags, all := {Dataset(Tagged(row))}, TagAll(rows);
    TagAt(rows);
    TagAt(Lay(rows, row));
    TagKeepsId(row);
    forall x ensures Id(Tagged(x)) == Id(x) { TagKeepsId(x); }
    IndexSpec(rows, Id(row), {Dataset(row)});
    IndexSpec(all, Id(row), tags);
    if DATASET !in row {
      assert forall j | 0 <= j < |rows| :: rows[j] in rows && Id(all[j]) == Id(rows[j]);
      IndexNone(all, Id(row), tags);
    } else {
      forall j | 0 <= j < |rows|
        ensures Id(all[j]) == Id(row) && Dataset(all[j]) in tags <==> Id(rows[j]) == Id(row) && Dataset(rows[j]) in {Dataset(row)}
      {
        assert rows[j] in rows;
      }
      SameIndex(rows, all, Id(row), Dataset(row));
    }
  }

  lemma SameIndex(rows: seq<Row>, all: seq<Row>, id: int, dataset: int)
    requires |rows| == |all|
    requires forall j | 0 <= j < |rows| ::
      (Id(all[j]) == id && Dataset(all[j]) in {dataset}) <==> (Id(rows[j]) == id && Dataset(rows[j]) in {dataset})
    ensures Index(all, id, {dataset}) == Index(rows, id, {dataset})
  {
    hide Index;
    IndexSpec(rows, id, {dataset});
    var i := Index(rows, id, {dataset});
    if i.Some? {
      IndexIs(all, id, {dataset}, i.value);
    } else {
      IndexNone(all, id, {dataset});
    }
  }

  lemma {:induction false} TagAt(rows: seq<Row>)
    ensures forall i | 0 <= i < |rows| :: TagAll(rows)[i] == Tagged(rows[i])
  {
    hide Tagged;
    if rows != [] {
      TagAt(rows[..|rows| - 1]);
      assert forall i | 0 <= i < |rows| - 1 :: rows[..|rows| - 1][i] == rows[i];
    }
  }

  lemma ApartFront(b: Buckets, staged: seq<Row>)
    requires Apart(b, staged) && staged != []
    ensures var front, row := staged[..|staged| - 1], staged[|staged| - 1];
      && Apart(b, front)
      && (DATASET !in row ==> Dataset(row) == 0 && Unused(b, Id(row)) && forall x | x in front :: Id(x) != Id(row))
      && (DATASET in row ==> forall x | x in front && DATASET !in x :: Id(x) != Id(row))
  {
    hide Unused;
    var front, row := staged[..|staged| - 1], staged[|staged| - 1];
    assert forall x | x in front :: x in staged;
    if DATASET !in row {
      forall x | x in front ensures Id(x) != Id(row) {
        var i :| 0 <= i < |front| && front[i] == x;
        assert staged[i] == x;
        if DATASET !in x { assert Dataset(x) == Dataset(row); }
      }
    }
  }

  /** What is shown, with new rows counted as filed, is the library with the staged rows as they will
      be filed on top. */
  lemma {:induction false} TagView(b: Buckets, staged: seq<Row>)
    requires Apart(b, staged)
    ensures TagAll(View(b, staged)) == View(b, TagAll(staged))
  {
    hide Lay;
    hide ShowAll;
    hide Apart;
    hide Unused;
    hide Tagged;
    if staged == [] {
      forall x | x in ShowAll(b) ensures DATASET in x { InShown(b, x); }
      AllTagged(ShowAll(b));
    } else {
      var front, row := staged[..|staged| - 1], staged[|staged| - 1];
      ApartFront(b, staged);
      TagView(b, front);
      forall x | x in View(b, front)
        ensures x in front || (DATASET in x && !Unused(b, Id(x)))
      {
        InView(ShowAll(b), front, x);
        if x in ShowAll(b) { InShown(b, x); }
      }
      TagLaid(View(b, front), row);
      assert TagAll(staged)[..|staged| - 1] == TagAll(front);
    }
  }
}
