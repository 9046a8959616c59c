/** Exactly which walked chunks give a storage report whose rows add up. */
module StorageMerged {
  import opened Outcomes
  import opened Bytes
  import opened StorageWalk
  import opened StorageReport

  /** Chunks merged one after the other. */
  function Merged(c: Container, labels: Labels, rs: seq<ChunkRecord>): Container
    decreases rs
  {
    if rs == [] then c else Merged(Accumulated(c, labels, rs[0]), labels, rs[1..])
  }

  /** The containers of a row that go under one label. */
  function NamedIn(labels: Labels, row: seq<ChunkRecord>, k: string): seq<ChunkRecord> {
    if row == [] then []
    else (if row[0].tag != "mhod" && labels.chunk(row[0].tag) == k then [row[0]] else []) + NamedIn(labels, row[1..], k)
  }

  /** The containers directly inside some chunks that go under one label. */
  function Named(labels: Labels, rs: seq<ChunkRecord>, k: string): seq<ChunkRecord> {
    if rs == [] then [] else NamedIn(labels, rs[0].children, k) + Named(labels, rs[1..], k)
  }

  /** Bytes of the headers of some chunks and of what is directly inside them. */
  function Inner(rs: seq<ChunkRecord>): nat {
    if rs == [] then 0 else rs[0].header + TotalOf(rs[0].children) + Inner(rs[1..])
  }

  function Height(rs: seq<ChunkRecord>): nat
    decreases rs
  {
    if rs == [] then 0
    else
      var first, rest := 1 + Height(rs[0].children), Height(rs[1..]);
      if first < rest then rest else first
  }

  lemma {:induction false} HeightConcat(a: seq<ChunkRecord>, b: seq<ChunkRecord>, n: nat)
    requires Height(a) <= n && Height(b) <= n
    ensures Height(a + b) <= n
  {
    if a == [] {
      assert a + b == b;
    } else {
      assert (a + b)[0] == a[0] && (a + b)[1..] == a[1..] + b;
      HeightConcat(a[1..], b, n);
    }
  }

  lemma {:induction false} NamedInLower(labels: Labels, row: seq<ChunkRecord>, k: string)
    ensures Height(NamedIn(labels, row, k)) <= Height(row)
  {
    if row != [] {
      NamedInLower(labels, row[1..], k);
      var one := [row[0]];
      assert one[1..] == [] && Height(one[1..]) == 0;
      HeightConcat(one, NamedIn(labels, row[1..], k), Height(row));
      assert [] + NamedIn(labels, row[1..], k) == NamedIn(labels, row[1..], k);
    }
  }

  lemma {:induction false} NamedLower(labels: Labels, rs: seq<ChunkRecord>, k: string)
    ensures rs != [] ==> Height(Named(labels, rs, k)) < Height(rs)
  {
    hide NamedIn;
    if rs != [] {
      NamedLower(labels, rs[1..], k);
      NamedInLower(labels, rs[0].children, k);
      if rs[1..] == [] {
        assert Named(labels, rs[1..], k) == [] && Height([]) == 0;
      }
      HeightConcat(NamedIn(labels, rs[0].children, k), Named(labels, rs[1..], k), Height(rs) - 1);
    }
  }

  /** Some chunks, merged under one label, have room for what is inside them; and so have the
      containers inside them, merged by label, at every depth. */
  ghost predicate Roomy(labels: Labels, rs: seq<ChunkRecord>)
    decreases Height(rs)
  {
    && Inner(rs) <= TotalOf(rs)
    && forall k | Named(labels, rs, k) != [] :: (NamedLower(labels, rs, k); Roomy(labels, Named(labels, rs, k)))
  }

  lemma {:induction false} MergedConcat(c: Container, labels: Labels, a: seq<ChunkRecord>, b: seq<ChunkRecord>)
    ensures Merged(c, labels, a + b) == Merged(Merged(c, labels, a), labels, b)
    decreases a
  {
    hide Accumulated;
    if a == [] {
      assert a + b == b;
    } else {
      assert (a + b)[0] == a[0] && (a + b)[1..] == a[1..] + b;
      MergedConcat(Accumulated(c, labels, a[0]), labels, a[1..], b);
    }
  }

  lemma MergedOne(c: Container, labels: Labels, r: ChunkRecord)
    ensures Merged(c, labels, [r]) == Accumulated(c, labels, r)
  {
    hide Accumulated;
    var one := [r];
    assert one[1..] == [];
    assert Merged(Accumulated(c, labels, r), labels, one[1..]) == Accumulated(c, labels, r);
  }

  /** What one row does to a container: its bytes are accounted for, and under each label the
      containers of the row are merged in order. */
  lemma {:induction false} RowMerged(c: Container, labels: Labels, row: seq<ChunkRecord>, k: string)
    ensures var after := AccumulatedAll(c, labels, row);
      && Accounted(after) == Accounted(c) + TotalOf(row)
      && (k in after.children <==> k in c.children || NamedIn(labels, row, k) != [])
      && ChildAt(after, k) == Merged(ChildAt(c, k), labels, NamedIn(labels, row, k))
    decreases row
  {
    hide WithObject;
    hide Accounted;
    hide Accumulated;
    if row != [] {
      var r := row[0];
      if r.tag == "mhod" {
        ObjectBytes(c, labels, r);
        RowMerged(WithObject(c, labels, r), labels, row[1..], k);
        assert [] + NamedIn(labels, row[1..], k) == NamedIn(labels, row[1..], k);
      } else {
        var name := labels.chunk(r.tag);
        var child := Accumulated(ChildAt(c, name), labels, r);
        var next := c.(children := c.children[name := child]);
        ChildBytes(c, name, child);
        ChildTotal(ChildAt(c, name), labels, r);
        RowMerged(next, labels, row[1..], k);
        if name == k {
          assert ([r] + NamedIn(labels, row[1..], k))[1..] == NamedIn(labels, row[1..], k);
        } else {
          assert [] + NamedIn(labels, row[1..], k) == NamedIn(labels, row[1..], k);
        }
      }
    }
  }

  lemma ChildTotal(c: Container, labels: Labels, r: ChunkRecord)
    ensures Accumulated(c, labels, r).bytes == c.bytes + r.total
  {
    AccumulatedBytes(c.(bytes := c.bytes + r.total, header := c.header + r.header, count := c.count + 1), labels, r.children);
  }

  function Entered(c: Container, r: ChunkRecord): Container {
    c.(bytes := c.bytes + r.total, header := c.header + r.header, count := c.count + 1)
  }

  lemma EnteredAccounted(c: Container, r: ChunkRecord)
    ensures Accounted(Entered(c, r)) == Accounted(c) + r.header
  {
    hide Total;
    assert ObjectSizes(Entered(c, r)) == ObjectSizes(c) && ChildSizes(Entered(c, r)) == ChildSizes(c);
  }

  lemma OneMerged(c: Container, labels: Labels, r: ChunkRecord, k: string)
    ensures var after := Accumulated(c, labels, r);
      && after.bytes == c.bytes + r.total
      && Accounted(after) == Accounted(c) + r.header + TotalOf(r.children)
      && (k in after.children <==> k in c.children || NamedIn(labels, r.children, k) != [])
      && ChildAt(after, k) == Merged(ChildAt(c, k), labels, NamedIn(labels, r.children, k))
  {
    hide NamedIn;
    hide Accounted;
    hide AccumulatedAll;
    hide Merged;
    EnteredAccounted(c, r);
    ChildTotal(c, labels, r);
    RowMerged(Entered(c, r), labels, r.children, k);
  }

  /** The same for several chunks. */
  lemma {:induction false} AllMerged(c: Container, labels: Labels, rs: seq<ChunkRecord>, k: string)
    ensures var after := Merged(c, labels, rs);
      && after.bytes == c.bytes + TotalOf(rs)
      && Accounted(after) == Accounted(c) + Inner(rs)
      && (k in after.children <==> k in c.children || Named(labels, rs, k) != [])
      && ChildAt(after, k) == Merged(ChildAt(c, k), labels, Named(labels, rs, k))
    decreases rs
  {
    hide Accounted;
    hide Accumulated;
    hide NamedIn;
    if rs != [] {
      var next := Accumulated(c, labels, rs[0]);
      OneMerged(c, labels, rs[0], k);
      AllMerged(next, labels, rs[1..], k);
      MergedConcat(ChildAt(c, k), labels, NamedIn(labels, rs[0].children, k), Named(labels, rs[1..], k));
    }
  }

  /** The data objects of a row that go under one label. */
  function Typed(labels: Labels, row: seq<ChunkRecord>, k: string): seq<ChunkRecord> {
    if row == [] then []
    else (if row[0].tag == "mhod" && labels.mhod(row[0].mhodType) == k then [row[0]] else []) + Typed(labels, row[1..], k)
  }

  /** The data objects directly inside some chunks that go under one label. */
  function TypedIn(labels: Labels, rs: seq<ChunkRecord>, k: string): seq<ChunkRecord> {
    if rs == [] then [] else Typed(labels, rs[0].children, k) + TypedIn(labels, rs[1..], k)
  }

  function PayloadOf(row: seq<ChunkRecord>): nat {
    if row == [] then 0 else row[0].payload + PayloadOf(row[1..])
  }

  function HeadersOf(row: seq<ChunkRecord>): nat {
    if row == [] then 0 else row[0].header + HeadersOf(row[1..])
  }

  /** Data objects put under a label: their type is that of the first one there. */
  ghost predicate Grown(before: Container, after: Container, k: string, found: seq<ChunkRecord>) {
    && (k in after.objects <==> k in before.objects || found != [])
    && (k in after.objects ==>
          && var was := ObjectsAt(before, k, None);
          && after.objects[k].bytes == was.bytes + TotalOf(found)
          && after.objects[k].payload == was.payload + PayloadOf(found)
          && after.objects[k].count == was.count + |found|
          && after.objects[k].mhodType == if k in before.objects then was.mhodType else found[0].mhodType)
  }

  lemma {:induction false} GrownTwice(a: Container, b: Container, c: Container, k: string, x: seq<ChunkRecord>, y: seq<ChunkRecord>)
    requires Grown(a, b, k, x) && Grown(b, c, k, y)
    ensures Grown(a, c, k, x + y)
  {
    SumsConcat(x, y);
  }

  lemma {:induction false} SumsConcat(a: seq<ChunkRecord>, b: seq<ChunkRecord>)
    ensures TotalOf(a + b) == TotalOf(a) + TotalOf(b) && PayloadOf(a + b) == PayloadOf(a) + PayloadOf(b)
  {
    if a == [] {
      assert a + b == b;
    } else {
      assert (a + b)[0] == a[0] && (a + b)[1..] == a[1..] + b;
      SumsConcat(a[1..], b);
    }
  }

  /** What a row does to the data objects of a container. */
  lemma {:induction false} RowObjects(c: Container, labels: Labels, row: seq<ChunkRecord>, k: string)
    ensures Grown(c, AccumulatedAll(c, labels, row), k, Typed(labels, row, k))
    ensures AccumulatedAll(c, labels, row).count == c.count
    decreases row
  {
    hide Grown;
    hide Accumulated;
    if row == [] {
      NothingGrown(c, k);
    } else {
      var r := row[0];
      if r.tag == "mhod" {
        var next := WithObject(c, labels, r);
        OneGrown(c, labels, r, k);
        RowObjects(next, labels, row[1..], k);
        GrownTwice(c, next, AccumulatedAll(c, labels, row), k, if labels.mhod(r.mhodType) == k then [r] else [], Typed(labels, row[1..], k));
      } else {
        var name := labels.chunk(r.tag);
        var next := c.(children := c.children[name := Accumulated(ChildAt(c, name), labels, r)]);
        RowObjects(next, labels, row[1..], k);
        SameGrown(c, next, AccumulatedAll(c, labels, row), k, Typed(labels, row[1..], k));
        assert [] + Typed(labels, row[1..], k) == Typed(labels, row[1..], k);
      }
    }
  }

  lemma NothingGrown(c: Container, k: string)
    ensures Grown(c, c, k, [])
  {
  }

  lemma SameGrown(c: Container, next: Container, after: Container, k: string, found: seq<ChunkRecord>)
    requires next.objects == c.objects
    ensures Grown(c, after, k, found) <==> Grown(next, after, k, found)
  {
  }

  lemma OneGrown(c: Container, labels: Labels, r: ChunkRecord, k: string)
    ensures Grown(c, WithObject(c, labels, r), k, if labels.mhod(r.mhodType) == k then [r] else [])
  {
    var one := [r];
    assert one[1..] == [] && TotalOf(one) == r.total && PayloadOf(one) == r.payload;
  }

  /** Merging chunks: under each label of data objects, the bytes, payload and number of those directly
      inside the chunks are added; the headers and the chunks themselves are counted. */
  lemma {:induction false} ObjectsMerged(c: Container, labels: Labels, rs: seq<ChunkRecord>, k: string)
    ensures var after := Merged(c, labels, rs);
      && Grown(c, after, k, TypedIn(labels, rs, k))
      && after.header == c.header + HeadersOf(rs)
      && after.count == c.count + |rs|
      && after.name == c.name
    decreases rs
  {
    hide Grown;
    hide Typed;
    hide AccumulatedAll;
    if rs == [] {
      NothingGrown(c, k);
    } else {
      var entered, next := Entered(c, rs[0]), Accumulated(c, labels, rs[0]);
      RowObjects(entered, labels, rs[0].children, k);
      AccumulatedBytes(entered, labels, rs[0].children);
      SameGrown(c, entered, next, k, Typed(labels, rs[0].children, k));
      ObjectsMerged(next, labels, rs[1..], k);
      GrownTwice(c, next, Merged(c, labels, rs), k, Typed(labels, rs[0].children, k), TypedIn(labels, rs[1..], k));
    }
  }

  /** What is reported for chunks under one name: their bytes, headers and number, a data object for each
      label that occurs directly inside them, and the containers inside them, merged by label. */
  lemma ReportedExactly(labels: Labels, name: string, rs: seq<ChunkRecord>, k: string)
    ensures var after := Merged(Empty(name), labels, rs);
      && after.name == name && after.bytes == TotalOf(rs) && after.header == HeadersOf(rs) && after.count == |rs|
      && var found := TypedIn(labels, rs, k);
      && (k in after.objects <==> found != [])
      && (found != [] ==> after.objects[k] == Objects(found[0].mhodType, TotalOf(found), |found|, PayloadOf(found)))
      && (k in after.children <==> Named(labels, rs, k) != [])
      && (k in after.children ==> after.children[k] == Merged(Empty(k), labels, Named(labels, rs, k)))
  {
    hide Merged;
    hide TypedIn;
    hide Named;
    hide Accounted;
    AllMerged(Empty(name), labels, rs, k);
    ObjectsMerged(Empty(name), labels, rs, k);
  }

  /** A record is reported under a label exactly when it is a data object, directly inside one of the
      chunks, whose type has that label. */
  lemma {:induction false} TypedIff(labels: Labels, rs: seq<ChunkRecord>, k: string, r: ChunkRecord)
    ensures r in TypedIn(labels, rs, k) <==>
              r.tag == "mhod" && labels.mhod(r.mhodType) == k && exists i :: 0 <= i < |rs| && r in rs[i].children
  {
    hide Typed;
    if rs != [] {
      TypedRowIff(labels, rs[0].children, k, r);
      TypedIff(labels, rs[1..], k, r);
      if i :| 0 <= i < |rs| && r in rs[i].children {
        assert i == 0 || rs[i] == rs[1..][i - 1];
      }
    }
  }

  lemma {:induction false} TypedRowIff(labels: Labels, row: seq<ChunkRecord>, k: string, r: ChunkRecord)
    ensures r in Typed(labels, row, k) <==> r in row && r.tag == "mhod" && labels.mhod(r.mhodType) == k
  {
    if row != [] {
      TypedRowIff(labels, row[1..], k, r);
    }
  }

  /** A merged container fits, at every depth, exactly when the chunks merged into it are roomy. */
  lemma {:induction false} FitsIff(labels: Labels, name: string, rs: seq<ChunkRecord>)
    ensures Fits(Merged(Empty(name), labels, rs)) <==> Roomy(labels, rs)
    decreases Height(rs)
  {
    hide Accounted;
    hide Named;
    hide Merged;
    hide Inner;
    hide TotalOf;
    hide Height;
    var after := Merged(Empty(name), labels, rs);
    EmptyFits(name);
    AllMerged(Empty(name), labels, rs, name);
    assert Accounted(after) <= after.bytes <==> Inner(rs) <= TotalOf(rs);
    forall k
      ensures k in after.children <==> Named(labels, rs, k) != []
      ensures k in after.children ==> (Fits(after.children[k]) <==> Roomy(labels, Named(labels, rs, k)))
    {
      AllMerged(Empty(name), labels, rs, k);
      if k in after.children {
        NamedLower(labels, rs, k);
        NothingNamed(labels, rs, k);
        FitsIff(labels, k, Named(labels, rs, k));
      }
    }
  }

  lemma NothingNamed(labels: Labels, rs: seq<ChunkRecord>, k: string)
    ensures rs == [] ==> Named(labels, rs, k) == []
  {
  }

  /** The report of walked bytes adds up, at every depth, exactly when the root chunk is roomy. */
  lemma ReportFitsIff(data: Bytes, labels: Labels)
    ensures var r := Walk(data, 0, |data|).record;
            r.Some? ==> (Fits(Accumulated(Empty("iTunesDB"), labels, r.value)) <==> Roomy(labels, [r.value]))
  {
    hide Walk;
    hide Fits;
    hide Roomy;
    hide Accumulated;
    var r := Walk(data, 0, |data|).record;
    if r.Some? {
      MergedOne(Empty("iTunesDB"), labels, r.value);
      FitsIff(labels, "iTunesDB", [r.value]);
    }
  }

  /** A dataset of 13 bytes, 12 of which are its header, around a chunk of 12 bytes. */
  const OVERRUN: Bytes := [0x6D, 0x68, 0x73, 0x64, 12, 0, 0, 0, 13, 0, 0, 0, 0x6D, 0x68, 0x7A, 0x7A, 12, 0, 0, 0, 12, 0, 0, 0]

  lemma SmallWord(data: Bytes, offset: nat, value: byte)
    requires offset + 4 <= |data|
    requires data[offset] == value && data[offset + 1] == 0 && data[offset + 2] == 0 && data[offset + 3] == 0
    ensures U32At(data, offset) == value
  {
  }

  lemma LargeWord(data: Bytes, offset: nat)
    requires offset + 4 <= |data| && data[offset + 3] > 0
    ensures U32At(data, offset) >= 0x100_0000
  {
  }

  lemma TagIs(data: Bytes, offset: nat, a: char, b: char, c: char, d: char)
    requires offset + 4 <= |data| && data[offset] < 128 && data[offset + 1] < 128 && data[offset + 2] < 128 && data[offset + 3] < 128
    requires data[offset] == a as int && data[offset + 1] == b as int && data[offset + 2] == c as int && data[offset + 3] == d as int
    ensures TagAt(data, offset) == [a, b, c, d]
  {
    assert data[offset + 0] == a as int;
  }

  lemma DatasetHead(data: Bytes)
    requires |data| == 24 && TagAt(data, 0) == ['m', 'h', 's', 'd']
    requires U32At(data, 4) == 12 && U32At(data, 8) == 13 && U32At(data, 0x0C) != 9
    ensures HeadAt(data, 0, 24) == Success(Head("mhsd", 12, 13, 1, 13))
  {
    hide U32At;
    hide TagAt;
    assert TagAt(data, 0) == "mhsd";
    assert "mhsd" !in LISTS;
  }

  lemma PlainHead(data: Bytes)
    requires |data| == 24 && TagAt(data, 12) == ['m', 'h', 'z', 'z']
    requires U32At(data, 16) == 12 && U32At(data, 20) == 12
    ensures HeadAt(data, 12, 13) == Success(Head("mhzz", 12, 12, 0, 24))
  {
    hide U32At;
    hide TagAt;
    assert TagAt(data, 12) == "mhzz";
    assert "mhzz" !in LISTS && "mhzz" !in ITEMS;
  }

  lemma OverrunHeads()
    ensures HeadAt(OVERRUN, 0, 24) == Success(Head("mhsd", 12, 13, 1, 13))
    ensures HeadAt(OVERRUN, 12, 13) == Success(Head("mhzz", 12, 12, 0, 24))
  {
    hide U32At;
    hide TagAt;
    hide HeadAt;
    SmallWord(OVERRUN, 4, 12);
    SmallWord(OVERRUN, 8, 13);
    SmallWord(OVERRUN, 16, 12);
    SmallWord(OVERRUN, 20, 12);
    LargeWord(OVERRUN, 12);
    TagIs(OVERRUN, 0, 'm', 'h', 's', 'd');
    TagIs(OVERRUN, 12, 'm', 'h', 'z', 'z');
    DatasetHead(OVERRUN);
    PlainHead(OVERRUN);
  }

  lemma OverrunWalk()
    ensures var w := Walk(OVERRUN, 0, 24);
      && w.record.Some? && w.record.value.header == 12 && w.record.value.total == 13
      && |w.record.value.children| == 1 && w.record.value.children[0].total == 12
  {
    hide HeadAt;
    OverrunHeads();
    var inner := Walk(OVERRUN, 12, 13);
    assert inner.record.Some? && inner.record.value.total == 12 && inner.next == 24;
    assert WalkAll(OVERRUN, 24, 13, 0) == WalkedAll([], 24);
    assert WalkAll(OVERRUN, 12, 13, 1).records == [inner.record.value];
  }

  /** Bytes whose report does not add up: a child starts inside its parent and ends behind it. */
  lemma OverrunReport(labels: Labels)
    ensures var r := Walk(OVERRUN, 0, |OVERRUN|).record;
            r.Some? && !Roomy(labels, [r.value]) && !Fits(Accumulated(Empty("iTunesDB"), labels, r.value))
  {
    hide Walk;
    hide Fits;
    hide Accumulated;
    OverrunWalk();
    var r := Walk(OVERRUN, 0, 24).record.value;
    var one := [r];
    assert r.children[1..] == [] && TotalOf(r.children) == 12 + TotalOf(r.children[1..]);
    assert one[1..] == [] && Inner(one) == 24 + Inner(one[1..]) && TotalOf(one) == 13 + TotalOf(one[1..]);
    ReportFitsIff(OVERRUN, labels);
  }
}
