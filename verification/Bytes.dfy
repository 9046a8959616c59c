/** Byte strings and little-endian fields, as `struct` packs and unpacks them. */
module Bytes {
  import opened Outcomes

  type byte = x: int | 0 <= x < 256
  type Bytes = seq<byte>

  function Min(a: nat, b: nat): nat {
    if a < b then a else b
  }

  function Zeros(n: nat): Bytes {
    seq(n, _ => 0)
  }

  predicate FitsU16(x: int) { 0 <= x < 0x1_0000 }
  predicate FitsU32(x: int) { 0 <= x < 0x1_0000_0000 }
  predicate FitsU64(x: int) { 0 <= x < 0x1_0000_0000_0000_0000 }

  function U16(x: int): Bytes {
    [x % 256, x / 256 % 256]
  }

  function U32(x: int): Bytes {
    U16(x % 0x1_0000) + U16(x / 0x1_0000)
  }

  function U64(x: int): Bytes {
    U32(x % 0x1_0000_0000) + U32(x / 0x1_0000_0000)
  }

  function ReadU16(data: Bytes, offset: nat): (r: nat)
    requires offset + 2 <= |data|
    ensures FitsU16(r)
  {
    var low: int, high: int := data[offset], data[offset + 1];
    low + 256 * high
  }

  function ReadU32(data: Bytes, offset: nat): (r: nat)
    requires offset + 4 <= |data|
    ensures FitsU32(r)
  {
    ReadU16(data, offset) + 0x1_0000 * ReadU16(data, offset + 2)
  }

  function ReadU64(data: Bytes, offset: nat): (r: nat)
    requires offset + 8 <= |data|
    ensures FitsU64(r)
  {
    ReadU32(data, offset) + 0x1_0000_0000 * ReadU32(data, offset + 4)
  }

  /** `struct.unpack("<h")`: two's complement. */
  function ReadI16(data: Bytes, offset: nat): int
    requires offset + 2 <= |data|
  {
    var u := ReadU16(data, offset);
    if u < 0x8000 then u else u - 0x1_0000
  }

  /** `chunk` lies in `data` at `offset`. */
  predicate At(data: Bytes, offset: nat, chunk: Bytes) {
    offset + |chunk| <= |data| && data[offset..offset + |chunk|] == chunk
  }

  lemma AtWithin(data: Bytes, offset: nat, chunk: Bytes)
    requires At(data, offset, chunk)
    ensures offset + |chunk| <= |data|
  {
  }

  lemma AtIndex(data: Bytes, offset: nat, chunk: Bytes, k: nat)
    requires At(data, offset, chunk) && k < |chunk|
    ensures data[offset + k] == chunk[k]
  {
    assert data[offset..offset + |chunk|][k] == data[offset + k];
  }

  lemma SliceOfSlice<T>(s: seq<T>, i: nat, j: nat, lo: nat, hi: nat)
    requires i <= j <= |s| && lo <= hi <= j - i
    ensures s[i..j][lo..hi] == s[i + lo..i + hi]
  {
    forall k | 0 <= k < hi - lo ensures s[i..j][lo..hi][k] == s[i + lo..i + hi][k] {
      assert s[i..j][lo + k] == s[i + lo + k];
    }
  }

  lemma AtSplit(data: Bytes, offset: nat, a: Bytes, b: Bytes)
    requires At(data, offset, a + b)
    ensures At(data, offset, a) && At(data, offset + |a|, b)
  {
    SliceOfSlice(data, offset, offset + |a + b|, 0, |a|);
    SliceOfSlice(data, offset, offset + |a + b|, |a|, |a + b|);
    assert (a + b)[0..|a|] == a && (a + b)[|a|..|a + b|] == b;
  }

  lemma AtSlice(data: Bytes, offset: nat, chunk: Bytes, lo: nat, hi: nat)
    requires At(data, offset, chunk) && lo <= hi <= |chunk|
    ensures data[offset + lo..offset + hi] == chunk[lo..hi]
  {
    SliceOfSlice(data, offset, offset + |chunk|, lo, hi);
  }

  /** A field of an embedded chunk is the field of the chunk. */
  lemma AtRead(data: Bytes, offset: nat, chunk: Bytes, field: nat)
    requires At(data, offset, chunk)
    ensures field + 2 <= |chunk| ==> ReadU16(data, offset + field) == ReadU16(chunk, field)
    ensures field + 4 <= |chunk| ==> ReadU32(data, offset + field) == ReadU32(chunk, field)
    ensures field + 8 <= |chunk| ==> ReadU64(data, offset + field) == ReadU64(chunk, field)
  {
    assert forall k {:trigger chunk[k]} | 0 <= k < |chunk| :: data[offset + k] == chunk[k] by {
      forall k | 0 <= k < |chunk| ensures data[offset + k] == chunk[k] { AtIndex(data, offset, chunk, k); }
    }
    if field + 2 <= |chunk| {
      assert data[offset + field] == chunk[field] && data[offset + field + 1] == chunk[field + 1];
    }
    if field + 4 <= |chunk| {
      assert data[offset + field + 2] == chunk[field + 2] && data[offset + field + 3] == chunk[field + 3];
    }
    if field + 8 <= |chunk| {
      assert data[offset + field + 4] == chunk[field + 4] && data[offset + field + 5] == chunk[field + 5];
      assert data[offset + field + 6] == chunk[field + 6] && data[offset + field + 7] == chunk[field + 7];
    }
  }

  /** `header[offset:offset + len(field)] = field`, on a value. */
  function Patch(header: Bytes, offset: nat, field: Bytes): (r: Bytes)
    requires offset + |field| <= |header|
    ensures |r| == |header|
  {
    header[..offset] + field + header[offset + |field|..]
  }

  /** `header[offset:offset + len(field)] = field`, on a bytearray. */
  method Put(header: array<byte>, offset: nat, field: Bytes)
    requires offset + |field| <= header.Length
    modifies header
    ensures header[..] == Patch(old(header[..]), offset, field)
  {
    var i := 0;
    while i < |field|
      invariant i <= |field|
      invariant forall k | 0 <= k < header.Length ::
        header[k] == if offset <= k < offset + i then field[k - offset] else old(header[k])
    {
      header[offset + i] := field[i];
      i := i + 1;
    }
  }

  /** Why a writer gives up: a value outside its field, or a key missing from a lookup. */
  datatype PackError = OutOfRange | MissingKey

  /** `struct.pack_into("<I", header, offset, value)` */
  method PackU32(header: array<byte>, offset: nat, value: int) returns (r: Result<(), PackError>)
    requires offset + 4 <= header.Length
    modifies header
    ensures r.Success? <==> FitsU32(value)
    ensures r.Failure? ==> r.error == OutOfRange
    ensures r.Success? ==> header[..] == Patch(old(header[..]), offset, U32(value))
  {
    if !FitsU32(value) {
      return Failure(OutOfRange);
    }
    Put(header, offset, U32(value));
    return Success(());
  }

  /** `struct.pack_into("<H", header, offset, value)` */
  method PackU16(header: array<byte>, offset: nat, value: int) returns (r: Result<(), PackError>)
    requires offset + 2 <= header.Length
    modifies header
    ensures r.Success? <==> FitsU16(value)
    ensures r.Failure? ==> r.error == OutOfRange
    ensures r.Success? ==> header[..] == Patch(old(header[..]), offset, U16(value))
  {
    if !FitsU16(value) {
      return Failure(OutOfRange);
    }
    Put(header, offset, U16(value));
    return Success(());
  }

  /** `struct.pack_into("<Q", header, offset, value)` */
  method PackU64(header: array<byte>, offset: nat, value: int) returns (r: Result<(), PackError>)
    requires offset + 8 <= header.Length
    modifies header
    ensures r.Success? <==> FitsU64(value)
    ensures r.Failure? ==> r.error == OutOfRange
    ensures r.Success? ==> header[..] == Patch(old(header[..]), offset, U64(value))
  {
    if !FitsU64(value) {
      return Failure(OutOfRange);
    }
    Put(header, offset, U64(value));
    return Success(());
  }

  lemma UnpackU16(x: int)
    requires FitsU16(x)
    ensures ReadU16(U16(x), 0) == x
  {
  }

  lemma UnpackU32(x: int)
    requires FitsU32(x)
    ensures ReadU32(U32(x), 0) == x
  {
    UnpackU16(x % 0x1_0000);
    UnpackU16(x / 0x1_0000);
    assert U32(x)[0..2] == U16(x % 0x1_0000) && U32(x)[2..4] == U16(x / 0x1_0000);
  }

  lemma UnpackU64(x: int)
    requires FitsU64(x)
    ensures ReadU64(U64(x), 0) == x
  {
    UnpackU32(x % 0x1_0000_0000);
    UnpackU32(x / 0x1_0000_0000);
    AtRead(U64(x), 0, U32(x % 0x1_0000_0000), 0);
    AtRead(U64(x), 4, U32(x / 0x1_0000_0000), 0);
  }

  /** A packed field of a header reads back. */
  lemma PatchRead(header: Bytes, offset: nat, x: int)
    ensures offset + 2 <= |header| && FitsU16(x) ==> ReadU16(Patch(header, offset, U16(x)), offset) == x
    ensures offset + 4 <= |header| && FitsU32(x) ==> ReadU32(Patch(header, offset, U32(x)), offset) == x
    ensures offset + 8 <= |header| && FitsU64(x) ==> ReadU64(Patch(header, offset, U64(x)), offset) == x
  {
    if offset + 2 <= |header| && FitsU16(x) {
      UnpackU16(x);
      AtRead(Patch(header, offset, U16(x)), offset, U16(x), 0);
    }
    if offset + 4 <= |header| && FitsU32(x) {
      UnpackU32(x);
      AtRead(Patch(header, offset, U32(x)), offset, U32(x), 0);
    }
    if offset + 8 <= |header| && FitsU64(x) {
      UnpackU64(x);
      AtRead(Patch(header, offset, U64(x)), offset, U64(x), 0);
    }
  }

  /** Packing one field leaves the fields before and after it alone. */
  lemma PatchKeeps(header: Bytes, offset: nat, field: Bytes, at: nat)
    requires offset + |field| <= |header|
    ensures at + 2 <= |header| && (at + 2 <= offset || offset + |field| <= at) ==>
              ReadU16(Patch(header, offset, field), at) == ReadU16(header, at)
    ensures at + 4 <= |header| && (at + 4 <= offset || offset + |field| <= at) ==>
              ReadU32(Patch(header, offset, field), at) == ReadU32(header, at)
    ensures at + 8 <= |header| && (at + 8 <= offset || offset + |field| <= at) ==>
              ReadU64(Patch(header, offset, field), at) == ReadU64(header, at)
  {
  }
}
