/** Where the chunks of an ArtworkDB that the strict reader accepts may lie. */
module ArtworkDbNesting {
  import opened Bytes
  import opened ArtworkDbFormat
  import opened ArtworkDbReader

  /** Consecutive chunks: each starts where the one before it ends, is at least `least` bytes
      long, and the last one ends by `end`. */
  ghost predicate Tiled(data: Bytes, starts: seq<nat>, least: nat, end: nat)
    requires 12 <= least && end <= |data|
  {
    && starts != []
    && forall i, j | 0 <= i && j == i + 1 && j < |starts| ::
         && starts[i] + least <= starts[j] <= end
         && starts[j] == starts[i] + ReadU32(data, starts[i] + 8)
  }

  lemma TiledFront(data: Bytes, start: nat, rest: seq<nat>, least: nat, end: nat)
    requires 12 <= least && end <= |data| && Tiled(data, rest, least, end)
    requires start + least <= rest[0] <= end && rest[0] == start + ReadU32(data, start + 8)
    ensures Tiled(data, [start] + rest, least, end)
  {
    var all := [start] + rest;
    forall i, j | 0 <= i && j == i + 1 && j < |all|
      ensures all[i] + least <= all[j] <= end && all[j] == all[i] + ReadU32(data, all[i] + 8)
    {
      assert all[j] == rest[j - 1];
      if i > 0 { assert all[i] == rest[i - 1]; }
    }
  }

  lemma {:induction false} ChildrenTiled(env: Env, data: Bytes, offset: nat, end: nat, count: nat) returns (starts: seq<nat>)
    requires end <= |data| && ReadChildren(env, data, offset, end, count).Some?
    ensures |starts| == count + 1 && starts[0] == offset && Tiled(data, starts, 14, end)
    decreases count
  {
    hide ReadChild;
    hide ReadU32;
    if count == 0 {
      starts := [offset];
    } else {
      var rest := ChildrenTiled(env, data, offset + ReadU32(data, offset + 8), end, count - 1);
      starts := [offset] + rest;
      TiledFront(data, offset, rest, 14, end);
    }
  }

  /** The mhod children of the image item at [start, end) tile a part of it after its header. */
  ghost predicate ItemNested(data: Bytes, start: nat, end: nat)
    requires start + 52 <= end <= |data|
  {
    exists children: seq<nat> ::
      && |children| == ReadU32(data, start + 12) + 1 && start + 52 <= children[0]
      && children[0] == start + ReadU32(data, start + 4)
      && Tiled(data, children, 14, end)
  }

  lemma ItemIsNested(env: Env, data: Bytes, start: nat, end: nat)
    requires end <= |data| && start + 52 <= end
    requires end == start + ReadU32(data, start + 8) && ReadItem(env, data, start, end - start).Some?
    ensures ItemNested(data, start, end)
  {
    hide ReadChildren;
    hide ReadU32;
    hide ReadU64;
    hide FormatMap;
    var children := ChildrenTiled(env, data, start + ReadU32(data, start + 4), end, ReadU32(data, start + 12));
    assert |children| == ReadU32(data, start + 12) + 1 && start + 52 <= children[0];
  }

  ghost predicate ItemsNested(data: Bytes, items: seq<nat>, end: nat)
    requires end <= |data| && Tiled(data, items, 52, end)
  {
    forall i, j | 0 <= i && j == i + 1 && j < |items| :: ItemNested(data, items[i], items[j])
  }

  lemma {:induction false} ItemsTiled(env: Env, data: Bytes, offset: nat, end: nat, count: nat) returns (starts: seq<nat>)
    requires end <= |data| && ReadItems(env, data, offset, end, count).Some?
    ensures |starts| == count + 1 && starts[0] == offset && Tiled(data, starts, 52, end)
    ensures ItemsNested(data, starts, end)
    decreases count
  {
    hide ReadItem;
    hide ReadU32;
    hide ItemNested;
    if count == 0 {
      starts := [offset];
    } else {
      var next := offset + ReadU32(data, offset + 8);
      var rest := ItemsTiled(env, data, next, end, count - 1);
      starts := [offset] + rest;
      TiledFront(data, offset, rest, 52, end);
      ItemIsNested(env, data, offset, next);
      forall i, j | 0 <= i && j == i + 1 && j < |starts| ensures ItemNested(data, starts[i], starts[j]) {
        assert starts[j] == rest[j - 1];
        if i > 0 { assert starts[i] == rest[i - 1]; }
      }
    }
  }

  /** An image dataset at [start, end): its list header and then its items lie inside it. */
  ghost predicate DatasetNested(data: Bytes, start: nat, end: nat)
    requires start + 14 <= end <= |data|
  {
    ReadU16(data, start + 12) == IMAGE_LIST ==>
      var mhli := start + ReadU32(data, start + 4);
      && start + 14 <= mhli && mhli + 12 <= end
      && exists items: seq<nat> ::
        && |items| == ReadU32(data, mhli + 8) + 1
        && items[0] == mhli + ReadU32(data, mhli + 4) && mhli + 12 <= items[0]
        && Tiled(data, items, 52, end) && ItemsNested(data, items, end)
  }

  lemma DatasetIsNested(env: Env, data: Bytes, start: nat, end: nat, limit: nat)
    requires end <= limit <= |data| && ReadDataset(env, data, start, limit).Some?
    requires end == start + ReadU32(data, start + 8)
    ensures DatasetNested(data, start, end)
  {
    hide ReadItems;
    hide ReadU32;
    hide ReadU16;
    hide ItemsNested;
    if ReadU16(data, start + 12) == IMAGE_LIST {
      var mhli := start + ReadU32(data, start + 4);
      var items := ItemsTiled(env, data, mhli + ReadU32(data, mhli + 4), end, ReadU32(data, mhli + 8));
      assert mhli + 12 <= items[0];
    }
  }

  ghost predicate DatasetsNested(data: Bytes, datasets: seq<nat>, end: nat)
    requires end <= |data| && Tiled(data, datasets, 14, end)
  {
    forall i, j | 0 <= i && j == i + 1 && j < |datasets| :: DatasetNested(data, datasets[i], datasets[j])
  }

  lemma {:induction false} DatasetsTiled(env: Env, data: Bytes, offset: nat, end: nat, count: nat) returns (starts: seq<nat>)
    requires end <= |data| && ReadDatasets(env, data, offset, end, count).Some?
    ensures |starts| == count + 1 && starts[0] == offset && Tiled(data, starts, 14, end)
    ensures DatasetsNested(data, starts, end)
    decreases count
  {
    hide ReadDataset;
    hide ReadU32;
    hide DatasetNested;
    if count == 0 {
      starts := [offset];
    } else {
      var next := offset + ReadU32(data, offset + 8);
      var rest := DatasetsTiled(env, data, next, end, count - 1);
      starts := [offset] + rest;
      TiledFront(data, offset, rest, 14, end);
      DatasetIsNested(env, data, offset, next, end);
      forall i, j | 0 <= i && j == i + 1 && j < |starts| ensures DatasetNested(data, starts[i], starts[j]) {
        assert starts[j] == rest[j - 1];
        if i > 0 { assert starts[i] == rest[i - 1]; }
      }
    }
  }

  /** On any bytes at all: if the reader accepts them, the datasets tile the file after its
      header and within its declared length, the image items of an image dataset tile a part
      of that dataset, and the mhod children of an item tile a part of that item. */
  lemma AcceptedIsNested(env: Env, data: Bytes) returns (datasets: seq<nat>)
    requires ReadDatabase(env, data).Some?
    ensures |data| >= 32 && ReadU32(data, 8) <= |data|
    ensures |datasets| == ReadU32(data, 20) + 1 && 32 <= datasets[0]
    ensures datasets[0] == ReadU32(data, 4)
    ensures Tiled(data, datasets, 14, ReadU32(data, 8)) && DatasetsNested(data, datasets, ReadU32(data, 8))
  {
    hide ReadDatasets;
    hide ReadU32;
    datasets := DatasetsTiled(env, data, ReadU32(data, 4), ReadU32(data, 8), ReadU32(data, 20));
  }
}
