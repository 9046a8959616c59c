/** `_walk_chunk`: reading the chunk tree of an iTunesDB from untrusted bytes. */
module StorageWalk {
  import opened Outcomes
  import opened Bytes

  const MIN_HEADER: nat := 12
  const LISTS: set<string> := {"mhlt", "mhla", "mhli", "mhlp"}
  const ITEMS: set<string> := {"mhit", "mhia", "mhii", "mhip"}

  datatype ChunkRecord = ChunkRecord(
    tag: string,
    offset: nat,
    header: nat,
    total: nat,
    children: seq<ChunkRecord>,
    mhodType: Option<nat>,
    payload: nat
  )

  /** `data[offset:offset + 4].decode("ascii", errors="replace")` */
  function TagAt(data: Bytes, offset: nat): (r: string)
    requires offset + 4 <= |data|
    ensures |r| == 4
  {
    seq(4, i requires 0 <= i < 4 => if data[offset + i] < 128 then data[offset + i] as char else '\U{FFFD}')
  }

  /** `_u32_at` with default 0 */
  function U32At(data: Bytes, offset: nat): nat {
    if offset + 4 > |data| then 0 else ReadU32(data, offset)
  }

  /** `_resolve_chunk_shape`: the declared length. */
  function DeclaredLength(tag: string, header: nat, word3: nat): (r: nat)
    ensures r >= header
  {
    if tag in LISTS || word3 < header then header else word3
  }

  /** `_resolve_chunk_shape`: the declared number of children. */
  function ChildCount(data: Bytes, offset: nat, tag: string, word3: nat): nat {
    if tag == "mhbd" then U32At(data, offset + 0x14)
    else if tag == "mhsd" then (if U32At(data, offset + 0x0C) == 9 then 0 else 1)
    else if tag in LISTS then word3
    else if tag == "mhyp" then U32At(data, offset + 0x0C) + U32At(data, offset + 0x10)
    else if tag in ITEMS then U32At(data, offset + 0x0C)
    else 0
  }

  /** `_mhod_string_payload_bytes` */
  function StringBytes(data: Bytes, offset: nat, total: nat, mhodType: nat): nat {
    if 0 < mhodType < 15 || 17 < mhodType < 45 || 199 < mhodType < 205 || mhodType == 300 then
      if total < 0x28 then 0 else Min(U32At(data, offset + 0x1C), total - 0x28)
    else if mhodType in {15, 16} then (if total < 24 then 0 else total - 24)
    else 0
  }

  /** What a walk found, and where the next chunk would start. */
  datatype Walked = Walked(record: Option<ChunkRecord>, next: nat)
  datatype WalkedAll = WalkedAll(records: seq<ChunkRecord>, end: nat)

  /** What the header says: its length, that of the chunk, how many children follow it, and where
      they must start before. */
  datatype Head = Head(tag: string, header: nat, length: nat, count: nat, inside: nat)

  /** The chunk header at `offset`; where to go on when there is none. */
  function HeadAt(data: Bytes, offset: nat, boundary: nat): (r: Result<Head, nat>)
    requires offset <= |data|
    ensures r.Failure? ==> offset <= r.error <= |data|
    ensures r.Success? ==> MIN_HEADER <= r.value.header <= r.value.length && offset + r.value.length <= |data| && offset < boundary
    ensures r.Success? ==> r.value.inside == if r.value.tag in LISTS then boundary else offset + r.value.length
  {
    if offset + MIN_HEADER > |data| || offset >= boundary then Failure(offset)
    else
      var tag, header, word3 := TagAt(data, offset), U32At(data, offset + 4), U32At(data, offset + 8);
      if header < MIN_HEADER then Failure(offset)
      else if offset + header > |data| then Failure(|data|)
      else
        var length := if tag == "mhbd" then |data| - offset else Min(DeclaredLength(tag, header, word3), |data| - offset);
        Success(Head(tag, header, length, ChildCount(data, offset, tag, word3), if tag in LISTS then boundary else offset + length))
  }

  /** The record of a chunk whose children have been walked; a list ends where they do. */
  function Recorded(data: Bytes, offset: nat, head: Head, all: WalkedAll): (r: ChunkRecord)
    requires offset + head.header <= all.end
    ensures r.offset == offset && r.tag == head.tag && r.header == head.header && r.children == all.records
    ensures r.total == if head.tag in LISTS then all.end - offset else head.length
  {
    var total := if head.tag in LISTS then all.end - offset else head.length;
    var mhodType := if head.tag == "mhod" then Some(U32At(data, offset + 0x0C)) else None;
    ChunkRecord(head.tag, offset, head.header, total, all.records, mhodType,
                if mhodType.Some? then StringBytes(data, offset, total, mhodType.value) else 0)
  }

  function Walk(data: Bytes, offset: nat, boundary: nat): (r: Walked)
    requires offset <= |data|
    ensures offset <= r.next <= |data| && (r.record.Some? ==> offset < r.next)
    decreases |data| - offset, 0
  {
    var head := HeadAt(data, offset, boundary);
    if head.Failure? then Walked(None, head.error)
    else
      var h := head.value;
      var record := Recorded(data, offset, h, WalkAll(data, offset + h.header, h.inside, h.count));
      Walked(Some(record), offset + record.total)
  }

  /** At most `count` chunks in a row, as far as there are any. */
  function WalkAll(data: Bytes, offset: nat, boundary: nat, count: nat): (r: WalkedAll)
    requires offset <= |data|
    ensures offset <= r.end <= |data|
    decreases |data| - offset, 1
  {
    if count == 0 then WalkedAll([], offset)
    else
      var first := Walk(data, offset, boundary);
      if first.record.None? then WalkedAll([], offset)
      else
        var rest := WalkAll(data, first.next, boundary, count - 1);
        WalkedAll([first.record.value] + rest.records, rest.end)
  }

  method WalkChunk(data: Bytes, offset: nat, boundary: nat) returns (record: Option<ChunkRecord>, next: nat)
    requires offset <= |data|
    ensures Walked(record, next) == Walk(data, offset, boundary)
    decreases |data| - offset
  {
    hide HeadAt;
    hide Recorded;
    var head := HeadAt(data, offset, boundary);
    if head.Failure? {
      return None, head.error;
    }
    var h := head.value;
    var children := [];
    var childOffset := offset + h.header;
    ghost var all := WalkAll(data, childOffset, h.inside, h.count);
    var i := 0;
    while i < h.count
      invariant i <= h.count && offset + h.header <= childOffset <= |data|
      invariant var rest := WalkAll(data, childOffset, h.inside, h.count - i);
                all == WalkedAll(children + rest.records, rest.end)
      decreases h.count - i
    {
      var child, nextOffset := WalkChunk(data, childOffset, h.inside);
      if child.None? || nextOffset <= childOffset {
        break;
      }
      ghost var rest := WalkAll(data, nextOffset, h.inside, h.count - i - 1);
      assert children + ([child.value] + rest.records) == (children + [child.value]) + rest.records;
      children := children + [child.value];
      childOffset := nextOffset;
      i := i + 1;
    }
    assert all == WalkedAll(children, childOffset);
    var chunk := Recorded(data, offset, h, WalkedAll(children, childOffset));
    record, next := Some(chunk), offset + chunk.total;
  }

  /** Where a row of chunks that starts at `start` ends, if each begins where the last ended. */
  function EndOf(start: nat, row: seq<ChunkRecord>): nat
    decreases row
  {
    if row == [] then start else EndOf(start + row[0].total, row[1..])
  }

  ghost predicate InRow(start: nat, row: seq<ChunkRecord>)
    decreases row
  {
    row == [] || (row[0].offset == start && InRow(start + row[0].total, row[1..]))
  }

  /** A chunk that lies in the first `size` bytes and starts before `boundary`, with its children in
      a row right after its header; a list is exactly its header and its children. */
  ghost predicate Laid(size: nat, boundary: nat, r: ChunkRecord)
    decreases r
  {
    && MIN_HEADER <= r.header <= r.total && r.offset < boundary && r.offset + r.total <= size
    && InRow(r.offset + r.header, r.children) && EndOf(r.offset + r.header, r.children) <= size
    && (r.tag in LISTS ==> r.offset + r.total == EndOf(r.offset + r.header, r.children))
    && forall c | c in r.children :: Laid(size, if r.tag in LISTS then boundary else r.offset + r.total, c)
  }

  /** Whatever the bytes are, every chunk the walker reports lies in them, and its children follow
      its header without gaps. */
  lemma {:induction false} WalkLaid(data: Bytes, offset: nat, boundary: nat)
    requires offset <= |data|
    ensures var w := Walk(data, offset, boundary);
            w.record.Some? ==> Laid(|data|, boundary, w.record.value) && w.record.value.offset == offset
                               && w.next == offset + w.record.value.total
    decreases |data| - offset, 0
  {
    hide HeadAt;
    hide Recorded;
    var head := HeadAt(data, offset, boundary);
    if head.Success? {
      WalkAllLaid(data, offset + head.value.header, head.value.inside, head.value.count);
    }
  }

  lemma {:induction false} WalkAllLaid(data: Bytes, offset: nat, boundary: nat, count: nat)
    requires offset <= |data|
    ensures var w := WalkAll(data, offset, boundary, count);
      && InRow(offset, w.records) && EndOf(offset, w.records) == w.end
      && forall c | c in w.records :: Laid(|data|, boundary, c)
    decreases |data| - offset, 1
  {
    hide Laid;
    hide Walk;
    if count > 0 {
      WalkLaid(data, offset, boundary);
      var first := Walk(data, offset, boundary);
      if first.record.Some? {
        WalkAllLaid(data, first.next, boundary, count - 1);
      }
    }
  }

  lemma {:induction false} StopsAtEnd(data: Bytes, offset: nat, boundary: nat, count: nat)
    requires offset <= |data|
    ensures var all := WalkAll(data, offset, boundary, count);
      && |all.records| <= count
      && (|all.records| < count ==> HeadAt(data, all.end, boundary).Failure?)
    decreases count
  {
    hide HeadAt;
    hide Recorded;
    if count > 0 {
      var first := Walk(data, offset, boundary);
      if first.record.Some? {
        StopsAtEnd(data, first.next, boundary, count - 1);
      }
    }
  }

  /** How many children the header of a chunk announces. */
  function Announced(data: Bytes, offset: nat, tag: string): nat {
    match tag
    case "mhbd" => U32At(data, offset + 20)
    case "mhsd" => if U32At(data, offset + 12) == 9 then 0 else 1
    case "mhyp" => U32At(data, offset + 12) + U32At(data, offset + 16)
    case "mhlt" => U32At(data, offset + 8)
    case "mhla" => U32At(data, offset + 8)
    case "mhli" => U32At(data, offset + 8)
    case "mhlp" => U32At(data, offset + 8)
    case "mhit" => U32At(data, offset + 12)
    case "mhia" => U32At(data, offset + 12)
    case "mhii" => U32At(data, offset + 12)
    case "mhip" => U32At(data, offset + 12)
    case _ => 0
  }

  predicate IsList(tag: string) {
    tag == "mhlt" || tag == "mhla" || tag == "mhli" || tag == "mhlp"
  }

  lemma AnnouncedIs(data: Bytes, offset: nat, tag: string)
    ensures ChildCount(data, offset, tag, U32At(data, offset + 8)) == Announced(data, offset, tag)
    ensures tag in LISTS <==> IsList(tag)
  {
    hide U32At;
  }

  /** What a reported chunk is, on any bytes. A list ends where its children do; the root takes up the rest
      of the data; any other chunk has the length it says, but at least its header and at most what there
      is. It has as many children as it announces, or as many as there are headers for before it ends.
      The payload is that of a string object: the bytes after its header, but no more than it says. */
  lemma RecordExactly(data: Bytes, offset: nat, boundary: nat)
    requires offset <= |data| && Walk(data, offset, boundary).record.Some?
    ensures var r := Walk(data, offset, boundary).record.value;
      var end, left := EndOf(offset + r.header, r.children), |data| - offset;
      && r.tag == TagAt(data, offset) && r.header == U32At(data, offset + 4)
      && (IsList(r.tag) ==> r.total == end - offset)
      && (r.tag == "mhbd" ==> r.total == left)
      && (!IsList(r.tag) && r.tag != "mhbd" ==>
            r.total == if U32At(data, offset + 8) < r.header then r.header else if U32At(data, offset + 8) < left then U32At(data, offset + 8) else left)
      && |r.children| <= Announced(data, offset, r.tag)
      && (|r.children| < Announced(data, offset, r.tag) ==>
            end <= |data| && HeadAt(data, end, if IsList(r.tag) then boundary else offset + r.total).Failure?)
      && r.mhodType == (if r.tag == "mhod" then Some(U32At(data, offset + 12)) else None)
      && (r.mhodType.Some? && IsString(r.mhodType.value) && r.total >= 40 ==> r.payload == Min(U32At(data, offset + 28), r.total - 40))
      && (r.mhodType.Some? && 15 <= r.mhodType.value <= 16 && r.total >= 24 ==> r.payload == r.total - 24)
      && (r.mhodType.None? || !(IsString(r.mhodType.value) || 15 <= r.mhodType.value <= 16) ==> r.payload == 0)
  {
    hide WalkAll;
    hide U32At;
    hide TagAt;
    hide ChildCount;
    hide Announced;
    hide IsList;
    var h := HeadAt(data, offset, boundary).value;
    AnnouncedIs(data, offset, TagAt(data, offset));
    WalkAllLaid(data, offset + h.header, h.inside, h.count);
    StopsAtEnd(data, offset + h.header, h.inside, h.count);
    hide EndOf;
    hide InRow;
    hide Laid;
  }

  /** The types of data objects that are strings. */
  predicate IsString(mhodType: nat) {
    1 <= mhodType <= 14 || 18 <= mhodType <= 44 || 200 <= mhodType <= 204 || mhodType == 300
  }

  type Tag = t: string | |t| == 4 && t[0] as int < 128 && t[1] as int < 128 && t[2] as int < 128 && t[3] as int < 128
    witness "mhbd"

  /** A chunk as it is written: a tag, the header fields after its three words, its children, and
      bytes after them. */
  datatype Chunk = Chunk(tag: Tag, fields: Bytes, children: seq<Chunk>, tail: Bytes) {
    function HeaderLength(): nat {
      MIN_HEADER + |fields|
    }
  }

  function TagBytes(tag: Tag): Bytes {
    [tag[0] as int, tag[1] as int, tag[2] as int, tag[3] as int]
  }

  /** The header: lists give the number of their children where others give their length. */
  function PrintHeader(c: Chunk, length: nat): (r: Bytes)
    ensures |r| == c.HeaderLength()
  {
    TagBytes(c.tag) + U32(c.HeaderLength()) + U32(if c.tag in LISTS then |c.children| else length) + c.fields
  }

  function Print(c: Chunk): (r: Bytes)
    ensures |r| >= c.HeaderLength()
    decreases c
  {
    var body := PrintAll(c.children) + c.tail;
    PrintHeader(c, c.HeaderLength() + |body|) + body
  }

  function PrintAll(row: seq<Chunk>): Bytes
    decreases row
  {
    if row == [] then [] else Print(row[0]) + PrintAll(row[1..])
  }

  /** The counts in the header are those of the children. */
  predicate Counted(c: Chunk) {
    if c.tag == "mhbd" then |c.fields| >= 12 && ReadU32(c.fields, 8) == |c.children|
    else if c.tag == "mhsd" then |c.fields| >= 4 && |c.children| == if ReadU32(c.fields, 0) == 9 then 0 else 1
    else if c.tag in LISTS then c.tail == []
    else if c.tag == "mhyp" then |c.fields| >= 8 && ReadU32(c.fields, 0) + ReadU32(c.fields, 4) == |c.children|
    else if c.tag in ITEMS then |c.fields| >= 4 && ReadU32(c.fields, 0) == |c.children|
    else c.children == [] && (c.tag == "mhod" ==> |c.fields| >= 4)
  }

  /** A tree that a database can hold: counts that agree, numbers that fit their words, and only
      the root of the kind that takes up the whole file. */
  predicate WellFormed(c: Chunk)
    decreases c
  {
    && Counted(c) && FitsU32(|Print(c)|) && FitsU32(|c.children|)
    && forall d | d in c.children :: d.tag != "mhbd" && WellFormed(d)
  }

  /** The record of a printed chunk. */
  function RecordOf(c: Chunk, offset: nat): ChunkRecord
    requires WellFormed(c)
    decreases c
  {
    var mhodType := if c.tag == "mhod" then Some(ReadU32(c.fields, 0)) else None;
    ChunkRecord(c.tag, offset, c.HeaderLength(), |Print(c)|, RecordsOf(c.children, offset + c.HeaderLength()), mhodType,
                if mhodType.Some? then StringBytes(Print(c), 0, |Print(c)|, mhodType.value) else 0)
  }

  function RecordsOf(row: seq<Chunk>, offset: nat): seq<ChunkRecord>
    requires forall c | c in row :: WellFormed(c)
    decreases row
  {
    if row == [] then [] else [RecordOf(row[0], offset)] + RecordsOf(row[1..], offset + |Print(row[0])|)
  }

  lemma TagRead(data: Bytes, offset: nat, tag: Tag)
    requires At(data, offset, TagBytes(tag))
    ensures TagAt(data, offset) == tag
  {
    var b := TagBytes(tag);
    AtIndex(data, offset, b, 0);
    AtIndex(data, offset, b, 1);
    AtIndex(data, offset, b, 2);
    AtIndex(data, offset, b, 3);
  }

  /** The three words and the fields of a printed header. */
  lemma HeaderAt(data: Bytes, offset: nat, c: Chunk)
    requires At(data, offset, Print(c)) && WellFormed(c)
    ensures offset + c.HeaderLength() <= |data|
    ensures TagAt(data, offset) == c.tag && U32At(data, offset + 4) == c.HeaderLength()
    ensures U32At(data, offset + 8) == if c.tag in LISTS then |c.children| else |Print(c)|
    ensures At(data, offset + MIN_HEADER, c.fields)
    ensures At(data, offset + c.HeaderLength(), PrintAll(c.children))
  {
    hide TagAt;
    hide At;
    hide ReadU32;
    hide U32;
    var body := PrintAll(c.children) + c.tail;
    var t, a, b := TagBytes(c.tag), U32(c.HeaderLength()), U32(if c.tag in LISTS then |c.children| else |Print(c)|);
    WordLength(c.HeaderLength());
    WordLength(if c.tag in LISTS then |c.children| else |Print(c)|);
    assert Print(c) == (t + a + b + c.fields) + body;
    AtSplit(data, offset, t + a + b + c.fields, body);
    AtSplit(data, offset + c.HeaderLength(), PrintAll(c.children), c.tail);
    AtSplit(data, offset, t + a + b, c.fields);
    AtSplit(data, offset, t + a, b);
    AtSplit(data, offset, t, a);
    TagRead(data, offset, c.tag);
    WordRead(data, offset + 4, c.HeaderLength());
    WordRead(data, offset + 8, if c.tag in LISTS then |c.children| else |Print(c)|);
    AtWithin(data, offset, Print(c));
  }

  lemma WordLength(x: nat)
    ensures |U32(x)| == 4
  {
  }

  lemma WordRead(data: Bytes, offset: nat, x: nat)
    requires At(data, offset, U32(x)) && FitsU32(x)
    ensures U32At(data, offset) == x
  {
    UnpackU32(x);
    AtRead(data, offset, U32(x), 0);
  }

  lemma FieldRead(data: Bytes, offset: nat, c: Chunk, k: nat)
    requires At(data, offset + MIN_HEADER, c.fields) && k + 4 <= |c.fields|
    ensures U32At(data, offset + MIN_HEADER + k) == ReadU32(c.fields, k)
  {
    AtRead(data, offset + MIN_HEADER, c.fields, k);
  }

  lemma CountRead(data: Bytes, offset: nat, c: Chunk)
    requires At(data, offset + MIN_HEADER, c.fields) && Counted(c)
    ensures ChildCount(data, offset, c.tag, if c.tag in LISTS then |c.children| else |Print(c)|) == |c.children|
    ensures c.tag == "mhod" ==> U32At(data, offset + 0x0C) == ReadU32(c.fields, 0)
  {
    hide U32At;
    hide ReadU32;
    hide At;
    if |c.fields| >= 4 { FieldRead(data, offset, c, 0); }
    if |c.fields| >= 8 { FieldRead(data, offset, c, 4); }
    if |c.fields| >= 12 { FieldRead(data, offset, c, 8); }
  }

  /** Where a printed chunk may be walked: before its boundary, and at the very end of the data if it
      is of the kind that takes up the rest of the file. */
  predicate Placed(data: Bytes, offset: nat, boundary: nat, c: Chunk)
    requires WellFormed(c)
  {
    && At(data, offset, Print(c)) && offset + |Print(c)| <= boundary
    && (c.tag == "mhbd" ==> offset + |Print(c)| == |data|)
  }

  lemma HeadRead(data: Bytes, offset: nat, boundary: nat, c: Chunk)
    requires WellFormed(c) && Placed(data, offset, boundary, c)
    ensures HeadAt(data, offset, boundary)
            == Success(Head(c.tag, c.HeaderLength(), if c.tag in LISTS then c.HeaderLength() else |Print(c)|, |c.children|,
                            if c.tag in LISTS then boundary else offset + |Print(c)|))
  {
    hide TagAt;
    hide U32At;
    hide ChildCount;
    hide Print;
    hide Counted;
    HeaderAt(data, offset, c);
    assert Counted(c);
    CountRead(data, offset, c);
    AtWithin(data, offset, Print(c));
  }

  lemma PrintLength(c: Chunk)
    ensures |Print(c)| == c.HeaderLength() + |PrintAll(c.children)| + |c.tail|
  {
  }

  /** What a string object's bytes say does not depend on where it lies. */
  lemma PayloadRead(data: Bytes, offset: nat, chunk: Bytes, mhodType: nat)
    requires At(data, offset, chunk)
    ensures StringBytes(data, offset, |chunk|, mhodType) == StringBytes(chunk, 0, |chunk|, mhodType)
  {
    AtRead(data, offset, chunk, 0x1C);
  }

  /** Walking a printed chunk gives the chunk back. */
  lemma {:induction false} WalkPrinted(data: Bytes, offset: nat, boundary: nat, c: Chunk)
    requires WellFormed(c) && Placed(data, offset, boundary, c)
    ensures offset <= |data|
    ensures Walk(data, offset, boundary) == Walked(Some(RecordOf(c, offset)), offset + |Print(c)|)
    decreases c
  {
    hide HeadAt;
    hide Print;
    hide PrintAll;
    hide Counted;
    hide StringBytes;
    hide At;
    HeadRead(data, offset, boundary, c);
    HeaderAt(data, offset, c);
    PrintLength(c);
    AtWithin(data, offset, Print(c));
    var inside := if c.tag in LISTS then boundary else offset + |Print(c)|;
    WalkAllPrinted(data, offset + c.HeaderLength(), inside, c.children);
    if c.tag in LISTS {
      assert c.tail == [] by { CountedShape(c); }
    }
    if c.tag == "mhod" {
      CountedShape(c);
      PayloadRead(data, offset, Print(c), ReadU32(c.fields, 0));
      CountRead(data, offset, c);
    }
  }

  lemma CountedShape(c: Chunk)
    requires Counted(c)
    ensures c.tag in LISTS ==> c.tail == []
    ensures c.tag == "mhod" ==> |c.fields| >= 4
  {
  }

  lemma {:induction false} WalkAllPrinted(data: Bytes, offset: nat, boundary: nat, row: seq<Chunk>)
    requires forall c | c in row :: c.tag != "mhbd" && WellFormed(c)
    requires At(data, offset, PrintAll(row)) && offset + |PrintAll(row)| <= boundary
    ensures offset <= |data|
    ensures WalkAll(data, offset, boundary, |row|) == WalkedAll(RecordsOf(row, offset), offset + |PrintAll(row)|)
    decreases row
  {
    hide Walk;
    hide Print;
    hide WellFormed;
    hide RecordOf;
    AtWithin(data, offset, PrintAll(row));
    if row != [] {
      var c := row[0];
      AtSplit(data, offset, Print(c), PrintAll(row[1..]));
      WalkPrinted(data, offset, boundary, c);
      WalkAllPrinted(data, offset + |Print(c)|, boundary, row[1..]);
    }
  }

  /** The walker returns exactly the tree that was printed, for every well-formed tree. */
  lemma WalkRoundTrip(c: Chunk)
    requires WellFormed(c)
    ensures Walk(Print(c), 0, |Print(c)|) == Walked(Some(RecordOf(c, 0)), |Print(c)|)
  {
    hide WellFormed;
    hide Print;
    var data := Print(c);
    assert data[0..|data|] == data;
    WalkPrinted(data, 0, |data|, c);
  }
}
