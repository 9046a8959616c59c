/** Exactly which bytes the strict ArtworkDB reader accepts, and what it makes of those it did not write. */
module ArtworkDbAccepts {
  import opened Outcomes
  import opened Bytes
  import opened ArtworkTypes
  import opened ArtworkDbFormat
  import opened ArtworkDbReader
  import Text
  import Utf16
  import IthmbPaths

  /** A chunk at `start` that ends by `end`: its tag, a header of at least `least` bytes inside it. */
  ghost predicate IsChunk(data: Bytes, start: nat, end: nat, tag: Bytes, least: nat)
    requires end <= |data| && |tag| == 4 && least >= 12
  {
    && start + least <= end && data[start..start + 4] == tag
    && least <= ReadU32(data, start + 4) <= ReadU32(data, start + 8) && start + ReadU32(data, start + 8) <= end
  }

  /** Where a chunk ends, as its header says. */
  function EndOf(data: Bytes, start: nat): nat {
    if start + 12 <= |data| then start + ReadU32(data, start + 8) else start
  }

  /** Chunks that follow one another: the first at `from`, each where the one before it ends. */
  ghost predicate Follow(data: Bytes, starts: seq<nat>, from: nat) {
    starts != [] && starts[0] == from && forall i, j | 0 <= i && j == i + 1 && j < |starts| :: starts[j] == EndOf(data, starts[i])
  }

  /** `count` chunks that follow one another from `from` and are all good. */
  ghost predicate AllGood(data: Bytes, good: nat -> bool, from: nat, count: nat) {
    exists starts: seq<nat> :: |starts| == count + 1 && Follow(data, starts, from) && forall i | 0 <= i < count :: good(starts[i])
  }

  lemma NoneGood(data: Bytes, good: nat -> bool, from: nat)
    ensures AllGood(data, good, from, 0)
  {
    var starts: seq<nat> := [from];
    assert |starts| == 0 + 1 && Follow(data, starts, from);
  }

  lemma GoodFront(data: Bytes, good: nat -> bool, from: nat, count: nat)
    requires count > 0
    ensures AllGood(data, good, from, count) <==> good(from) && AllGood(data, good, EndOf(data, from), count - 1)
  {
    hide EndOf;
    if AllGood(data, good, from, count) {
      var starts: seq<nat> :| |starts| == count + 1 && Follow(data, starts, from) && forall i | 0 <= i < count :: good(starts[i]);
      var rest := starts[1..];
      assert starts[0] == from;
      assert Follow(data, rest, EndOf(data, from)) && |rest| == (count - 1) + 1;
      assert forall i | 0 <= i < count - 1 :: good(rest[i]);
    }
    if good(from) && AllGood(data, good, EndOf(data, from), count - 1) {
      var rest: seq<nat> :| |rest| == count && Follow(data, rest, EndOf(data, from)) && forall i | 0 <= i < count - 1 :: good(rest[i]);
      var starts := [from] + rest;
      forall i, j | 0 <= i && j == i + 1 && j < |starts| ensures starts[j] == EndOf(data, starts[i]) {
        if i > 0 { assert starts[i] == rest[i - 1] && starts[j] == rest[j - 1]; }
      }
      assert Follow(data, starts, from);
      forall i | 0 <= i < count ensures good(starts[i]) {
        if i > 0 { assert starts[i] == rest[i - 1]; }
      }
    }
  }

  /** An object of an image item: any mhod, and a thumbnail holds a whole image name. */
  ghost predicate GoodChild(data: Bytes, start: nat, end: nat) {
    && end <= |data| && IsChunk(data, start, end, MHOD, 14)
    && (ReadU16(data, start + 12) == 2 ==>
          var name := start + ReadU32(data, start + 4);
          name + 76 <= EndOf(data, start) && data[name..name + 4] == MHNI)
  }

  ghost function GoodChilds(data: Bytes, end: nat): nat -> bool {
    (start: nat) => GoodChild(data, start, end)
  }

  ghost predicate GoodItem(data: Bytes, start: nat, end: nat) {
    && end <= |data| && IsChunk(data, start, end, MHII, 52)
    && AllGood(data, GoodChilds(data, EndOf(data, start)),
               start + ReadU32(data, start + 4), ReadU32(data, start + 12))
  }

  ghost function GoodItems(data: Bytes, end: nat): nat -> bool {
    (start: nat) => GoodItem(data, start, end)
  }

  /** A dataset; only one of kind 1, the images, is looked into. */
  ghost predicate GoodDataset(data: Bytes, start: nat, end: nat) {
    && end <= |data| && IsChunk(data, start, end, MHSD, 14)
    && (ReadU16(data, start + 12) == 1 ==>
          var list, last := start + ReadU32(data, start + 4), EndOf(data, start);
          && list + 12 <= last && data[list..list + 4] == MHLI
          && 12 <= ReadU32(data, list + 4) && list + ReadU32(data, list + 4) <= last
          && AllGood(data, GoodItems(data, last),
                     list + ReadU32(data, list + 4), ReadU32(data, list + 8)))
  }

  ghost function GoodDatasets(data: Bytes, end: nat): nat -> bool {
    (start: nat) => GoodDataset(data, start, end)
  }

  ghost predicate GoodDatabase(data: Bytes) {
    && IsChunk(data, 0, |data|, MHFD, 32)
    && AllGood(data, GoodDatasets(data, EndOf(data, 0)),
               ReadU32(data, 4), ReadU32(data, 20))
  }

  lemma ChildAccepted(env: Env, data: Bytes, start: nat, end: nat)
    requires end <= |data|
    ensures ReadChild(env, data, start, end).Some? <==> GoodChild(data, start, end)
  {
    hide ParseFrame;
    hide ReadU32;
    hide ReadU16;
  }

  lemma {:induction false} ChildrenAccepted(env: Env, data: Bytes, from: nat, end: nat, count: nat)
    requires end <= |data|
    ensures ReadChildren(env, data, from, end, count).Some?
            <==> AllGood(data, GoodChilds(data, end), from, count)
    decreases count
  {
    hide AllGood;
    hide GoodChild;
    hide ReadChild;
    hide ReadU32;
    var good := GoodChilds(data, end);
    if count == 0 {
      NoneGood(data, good, from);
    } else {
      GoodFront(data, good, from, count);
      ChildAccepted(env, data, from, end);
      if ReadChild(env, data, from, end).Some? {
        ChildrenAccepted(env, data, EndOf(data, from), end, count - 1);
      }
    }
  }

  lemma ItemAccepted(env: Env, data: Bytes, start: nat, end: nat)
    requires end <= |data|
    ensures ReadChecked(env, data, start, end).Some? <==> GoodItem(data, start, end)
  {
    hide AllGood;
    hide GoodChild;
    hide ReadChildren;
    hide FormatMap;
    hide ReadU32;
    hide ReadU64;
    if start + 52 <= end && EndOf(data, start) <= end {
      ChildrenAccepted(env, data, start + ReadU32(data, start + 4), EndOf(data, start), ReadU32(data, start + 12));
    }
  }

  lemma {:induction false} ItemsAccepted(env: Env, data: Bytes, from: nat, end: nat, count: nat)
    requires end <= |data|
    ensures ReadItems(env, data, from, end, count).Some?
            <==> AllGood(data, GoodItems(data, end), from, count)
    decreases count
  {
    hide AllGood;
    hide GoodItem;
    hide ReadChecked;
    hide ReadU32;
    var good := GoodItems(data, end);
    if count == 0 {
      NoneGood(data, good, from);
    } else {
      GoodFront(data, good, from, count);
      ItemAccepted(env, data, from, end);
      if ReadChecked(env, data, from, end).Some? {
        ItemsAccepted(env, data, EndOf(data, from), end, count - 1);
      }
    }
  }

  lemma DatasetAccepted(env: Env, data: Bytes, start: nat, end: nat)
    requires end <= |data|
    ensures ReadDataset(env, data, start, end).Some? <==> GoodDataset(data, start, end)
  {
    hide AllGood;
    hide GoodItem;
    hide ReadItems;
    hide ReadU32;
    hide ReadU16;
    if start + 14 <= end && EndOf(data, start) <= end {
      var list := start + ReadU32(data, start + 4);
      if list + 12 <= EndOf(data, start) {
        ItemsAccepted(env, data, list + ReadU32(data, list + 4), EndOf(data, start), ReadU32(data, list + 8));
      }
    }
  }

  lemma {:induction false} DatasetsAccepted(env: Env, data: Bytes, from: nat, end: nat, count: nat)
    requires end <= |data|
    ensures ReadDatasets(env, data, from, end, count).Some?
            <==> AllGood(data, GoodDatasets(data, end), from, count)
    decreases count
  {
    hide AllGood;
    hide GoodDataset;
    hide ReadDataset;
    hide ReadU32;
    var good := GoodDatasets(data, end);
    if count == 0 {
      NoneGood(data, good, from);
    } else {
      GoodFront(data, good, from, count);
      DatasetAccepted(env, data, from, end);
      if ReadDataset(env, data, from, end).Some? {
        DatasetsAccepted(env, data, EndOf(data, from), end, count - 1);
      }
    }
  }

  /** On any bytes at all: the reader accepts exactly those whose datasets, image items and objects are
      chunks that follow one another, as many as their parent says, each inside its parent. */
  lemma AcceptedIff(env: Env, data: Bytes)
    ensures ReadDatabase(env, data).Some? <==> GoodDatabase(data)
  {
    hide AllGood;
    hide GoodDataset;
    hide ReadDatasets;
    hide ReadU32;
    if |data| >= 32 && EndOf(data, 0) <= |data| {
      DatasetsAccepted(env, data, ReadU32(data, 4), EndOf(data, 0), ReadU32(data, 20));
    }
  }

  /** Of the items with one image id the last is kept. */
  lemma {:induction false} LastEntryKept(entries: seq<ExistingEntry>, i: nat)
    requires i < |entries| && forall j | i < j < |entries| :: entries[j].imgId != entries[i].imgId
    ensures entries[i].imgId in EntryMap(entries) && EntryMap(entries)[entries[i].imgId] == entries[i]
  {
    if i < |entries| - 1 {
      LastEntryKept(entries[..|entries| - 1], i);
    }
  }

  lemma {:induction false} NoOtherEntry(entries: seq<ExistingEntry>, id: nat)
    ensures id in EntryMap(entries) <==> exists i :: 0 <= i < |entries| && entries[i].imgId == id
  {
    if entries != [] {
      var front := entries[..|entries| - 1];
      NoOtherEntry(front, id);
      assert forall i | 0 <= i < |front| :: front[i] == entries[i];
    }
  }

  /** Of the frames of one format the last is kept. */
  lemma {:induction false} LastFrameKept(frames: seq<Frame>, i: nat)
    requires i < |frames| && forall j | i < j < |frames| :: frames[j].0 != frames[i].0
    ensures frames[i].0 in FormatMap(frames) && FormatMap(frames)[frames[i].0] == frames[i].1
  {
    if i < |frames| - 1 {
      LastFrameKept(frames[..|frames| - 1], i);
    }
  }

  lemma {:induction false} NoOtherFrame(frames: seq<Frame>, f: nat)
    ensures f in FormatMap(frames) <==> exists i :: 0 <= i < |frames| && frames[i].0 == f
  {
    if frames != [] {
      var front := frames[..|frames| - 1];
      NoOtherFrame(front, f);
      assert forall i | 0 <= i < |front| :: front[i] == frames[i];
    }
  }

  /** The two bytes at `at` as a count: nothing when they are a negative number. */
  function Padding(data: Bytes, at: nat): nat
    requires at + 2 <= |data|
  {
    if data[at + 1] < 128 then data[at] as int + 256 * data[at + 1] as int else 0
  }

  /** What an image name says of its frame, on any bytes: a frame is kept when it has bytes and its file
      is there; a side is at least one, and a negative padding counts as none. */
  lemma FrameKeptIff(env: Env, data: Bytes, name: nat, end: nat)
    requires name + 76 <= end <= |data|
    ensures var format, size := ReadU32(data, name + 16), ReadU32(data, name + 24);
      var found := FindFilename(env, data, name + Max(76, ReadU32(data, name + 4)), Min(end, name + ReadU32(data, name + 8)));
      var file := IthmbPaths.Normalize(format, if found.Some? then found.value else "");
      && (ParseFrame(env, data, name, end).Some? <==> size > 0 && env.present(IthmbPaths.Normalize(format, file)))
      && (ParseFrame(env, data, name, end).Some? ==>
            var frame := ParseFrame(env, data, name, end).value;
            && frame.0 == format && frame.1.filename == file
            && frame.1.offset == ReadU32(data, name + 20) && frame.1.size == size
            && frame.1.vpad == Padding(data, name + 28) && frame.1.hpad == Padding(data, name + 30)
            && frame.1.height == Max(1, ReadU16(data, name + 32)) && frame.1.width == Max(1, ReadU16(data, name + 34)))
  {
    hide FindFilename;
    hide IthmbPaths.Normalize;
    hide ReadU32;
    var vpad, hpad := ReadI16(data, name + 28), ReadI16(data, name + 30);
    assert Max(0, vpad) == Padding(data, name + 28);
    assert Max(0, hpad) == Padding(data, name + 30);
  }

  /** Any object that is not a file name. */
  ghost predicate IsOther(data: Bytes, start: nat, end: nat)
    requires end <= |data|
  {
    IsChunk(data, start, end, MHOD, 24) && ReadU16(data, start + 12) != 3
  }

  /** The file name of a frame is the first one among its objects, whatever comes before and after it. */
  lemma {:induction false} NameAmongOthers(env: Env, data: Bytes, starts: seq<nat>, end: nat)
    requires end <= |data| && starts != [] && Follow(data, starts, starts[0])
    requires forall i | 0 <= i < |starts| - 1 :: IsOther(data, starts[i], end)
    ensures var name := starts[|starts| - 1];
            FindFilename(env, data, starts[0], end)
            == if IsChunk(data, name, end, MHOD, 24) && ReadU16(data, name + 12) == 3
               then DecodeChunk(env, data, name, ReadU32(data, name + 8))
               else if IsChunk(data, name, end, MHOD, 24) then FindFilename(env, data, EndOf(data, name), end)
               else None
  {
    hide DecodeChunk;
    hide ReadU32;
    hide ReadU16;
    if |starts| > 1 {
      var rest := starts[1..];
      assert starts[1] == EndOf(data, starts[0]) && rest[0] == starts[1];
      assert rest[|rest| - 1] == starts[|starts| - 1];
      forall i | 0 <= i < |rest| - 1 ensures IsOther(data, rest[i], end) {
        assert rest[i] == starts[i + 1];
      }
      NameAmongOthers(env, data, rest, end);
    }
  }

  function WordAt(data: Bytes, at: nat): nat {
    if at + 4 <= |data| then ReadU32(data, at) else 0
  }

  /** The text of a string object: as many bytes as it says or its chunk has, in UTF-16 when it is marked
      as that and in UTF-8 otherwise, without trailing NULs. */
  lemma TextOf(env: Env, data: Bytes, start: nat, n: nat)
    requires start + WordAt(data, start + 8) <= |data| && start + 36 <= start + WordAt(data, start + 8)
    requires WordAt(data, start + 4) == 24
    requires n <= WordAt(data, start + 8) - 36
    requires n == WordAt(data, start + 24) || (n < WordAt(data, start + 24) && n == WordAt(data, start + 8) - 36)
    ensures var raw := data[start + 36..start + 36 + n];
            DecodeChunk(env, data, start, WordAt(data, start + 8))
            == Some(Text.RStripNul(if data[start + 28] == 2 then Utf16.DecodeReplace(raw) else env.utf8(raw)))
  {
    hide Text.RStripNul;
    hide Utf16.DecodeReplace;
    hide ReadU32;
  }
}
