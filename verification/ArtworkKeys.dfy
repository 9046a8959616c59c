/** `_preserved_asset_ref`: entries that show the same frames share one asset. */
module ArtworkKeys {
  import opened Text
  import opened ArtworkTypes
  import opened IthmbPaths
  import opened IthmbPlanner

  type Refs = map<nat, ExistingFormatRef>

  /** `f"{format_id}:{filename}:{offset}:{size}"` */
  function Piece(f: nat, ref: ExistingFormatRef): string {
    Decimal(f) + ":" + (ref.filename + ":" + (Decimal(ref.offset) + ":" + Decimal(ref.size)))
  }

  /** `"|".join(...)` */
  function Joined(ids: seq<nat>, refs: Refs): string
    requires forall f | f in ids :: f in refs
    decreases |ids|, 0
  {
    if ids == [] then "" else Piece(ids[0], refs[ids[0]]) + JoinedRest(ids[1..], refs)
  }

  function JoinedRest(ids: seq<nat>, refs: Refs): string
    requires forall f | f in ids :: f in refs
    decreases |ids|, 1
  {
    if ids == [] then "" else "|" + Joined(ids, refs)
  }

  /** The asset of an entry that is kept. */
  ghost function PreservedAsset(e: ExistingEntry): AssetRef {
    SortedOfSpec(e.formats.Keys);
    AssetRef("preserve", if e.formats == map[] then Decimal(e.imgId) else Joined(SortedOf(e.formats.Keys), e.formats))
  }

  method PreservedAssetRef(e: ExistingEntry) returns (r: AssetRef)
    ensures r == PreservedAsset(e)
  {
    hide Piece;
    SortedOfSpec(e.formats.Keys);
    var ids := SortedKeys(e.formats.Keys);
    if ids == [] {
      assert e.formats.Keys == {};
      return AssetRef("preserve", Decimal(e.imgId));
    }
    assert e.formats != map[] by { assert ids[0] in e.formats.Keys; }
    var text := JoinPieces(ids, e.formats);
    return AssetRef("preserve", text);
  }

  method JoinPieces(ids: seq<nat>, refs: Refs) returns (text: string)
    requires ids != [] && forall f | f in ids :: f in refs
    ensures text == Joined(ids, refs)
  {
    hide Piece;
    text := Piece(ids[0], refs[ids[0]]);
    for i := 1 to |ids|
      invariant text + JoinedRest(ids[i..], refs) == Joined(ids, refs)
    {
      RestStep(ids, refs, i, text);
      hide Joined;
      hide JoinedRest;
      text := text + "|" + Piece(ids[i], refs[ids[i]]);
    }
    assert ids[|ids|..] == [] && text + "" == text;
  }

  lemma RestStep(ids: seq<nat>, refs: Refs, i: nat, text: string)
    requires i < |ids| && forall f | f in ids :: f in refs
    ensures text + JoinedRest(ids[i..], refs) == text + "|" + Piece(ids[i], refs[ids[i]]) + JoinedRest(ids[i + 1..], refs)
  {
    hide Piece;
    assert ids[i..][0] == ids[i] && ids[i..][1..] == ids[i + 1..];
    var p, rest := Piece(ids[i], refs[ids[i]]), JoinedRest(ids[i + 1..], refs);
    assert JoinedRest(ids[i..], refs) == "|" + (p + rest);
    Associate(text, "|", p, rest);
  }

  lemma Associate(a: string, b: string, c: string, d: string)
    ensures a + (b + (c + d)) == a + b + c + d
  {
  }

  /** A frame in the same bytes of the same file. */
  predicate SameFrame(a: ExistingFormatRef, b: ExistingFormatRef) {
    a.filename == b.filename && a.offset == b.offset && a.size == b.size
  }

  ghost predicate SameFrames(a: Refs, b: Refs) {
    a.Keys == b.Keys && forall f | f in a :: SameFrame(a[f], b[f])
  }

  /** No file name has the mark that separates the parts of a piece, as none has that was read. */
  ghost predicate Unmarked(refs: Refs) {
    forall f | f in refs :: ':' !in refs[f].filename
  }

  /** Nothing, or something after the mark between pieces. */
  predicate IsRest(s: string) {
    s == "" || s[0] == '|'
  }

  lemma DigitsEnd(a: string, rest: string, b: string, more: string)
    requires AllDigits(a) && AllDigits(b) && IsRest(rest) && IsRest(more) && a + rest == b + more
    ensures a == b && rest == more
  {
    var s := a + rest;
    assert |a| < |s| ==> s[|a|] == rest[0];
    assert |b| < |s| ==> s[|b|] == more[0];
    assert forall i | 0 <= i < |a| :: s[i] == a[i];
    assert forall i | 0 <= i < |b| :: s[i] == b[i];
    assert |a| == |b|;
    assert s[..|a|] == a && s[..|b|] == b && s[|a|..] == rest && s[|b|..] == more;
  }

  lemma NoMark(n: nat)
    ensures ':' !in Decimal(n)
  {
  }

  lemma PieceThen(f: nat, ref: ExistingFormatRef, rest: string)
    ensures Piece(f, ref) + rest
            == Decimal(f) + [':'] + (ref.filename + [':'] + (Decimal(ref.offset) + [':'] + (Decimal(ref.size) + rest)))
  {
    hide Decimal;
    var a, b, c, d := Decimal(f), ref.filename, Decimal(ref.offset), Decimal(ref.size);
    Nested(a, b, c, d, rest);
  }

  lemma Nested(a: string, b: string, c: string, d: string, rest: string)
    ensures a + ":" + (b + ":" + (c + ":" + d)) + rest == a + [':'] + (b + [':'] + (c + [':'] + (d + rest)))
  {
  }

  /** A piece says where it ends, and what it is made of. */
  lemma PieceInjective(f: nat, a: ExistingFormatRef, rest: string, g: nat, b: ExistingFormatRef, more: string)
    requires ':' !in a.filename && ':' !in b.filename && IsRest(rest) && IsRest(more)
    requires Piece(f, a) + rest == Piece(g, b) + more
    ensures f == g && SameFrame(a, b) && rest == more
  {
    hide Decimal;
    hide Piece;
    PieceThen(f, a, rest);
    PieceThen(g, b, more);
    NoMark(f);
    NoMark(g);
    NoMark(a.offset);
    NoMark(b.offset);
    var a3, b3 := Decimal(a.size) + rest, Decimal(b.size) + more;
    var a2, b2 := Decimal(a.offset) + [':'] + a3, Decimal(b.offset) + [':'] + b3;
    SplitAtMark(Decimal(f), a.filename + [':'] + a2, Decimal(g), b.filename + [':'] + b2, ':');
    SplitAtMark(a.filename, a2, b.filename, b2, ':');
    SplitAtMark(Decimal(a.offset), a3, Decimal(b.offset), b3, ':');
    DigitsEnd(Decimal(a.size), rest, Decimal(b.size), more);
    DecimalInjective(f, g);
    DecimalInjective(a.offset, b.offset);
    DecimalInjective(a.size, b.size);
  }

  lemma {:induction false} JoinedInjective(xs: seq<nat>, a: Refs, ys: seq<nat>, b: Refs)
    requires (forall f | f in xs :: f in a) && (forall f | f in ys :: f in b) && Unmarked(a) && Unmarked(b)
    requires xs != [] && ys != [] && Joined(xs, a) == Joined(ys, b)
    ensures xs == ys && forall f | f in xs :: SameFrame(a[f], b[f])
  {
    hide Piece;
    var f, g := xs[0], ys[0];
    PieceInjective(f, a[f], JoinedRest(xs[1..], a), g, b[g], JoinedRest(ys[1..], b));
    assert xs == [f] + xs[1..] && ys == [g] + ys[1..];
    if xs[1..] != [] && ys[1..] != [] {
      assert JoinedRest(xs[1..], a)[1..] == Joined(xs[1..], a);
      assert JoinedRest(ys[1..], b)[1..] == Joined(ys[1..], b);
      JoinedInjective(xs[1..], a, ys[1..], b);
    }
  }

  lemma {:induction false} JoinedSame(xs: seq<nat>, a: Refs, b: Refs)
    requires forall f | f in xs :: f in a && f in b && SameFrame(a[f], b[f])
    ensures Joined(xs, a) == Joined(xs, b)
  {
    if xs != [] {
      JoinedSame(xs[1..], a, b);
    }
  }

  /** Two entries share an asset exactly when they have the same formats, each in the same bytes of the same
      file, whatever else they say. */
  lemma SameAssetIff(a: ExistingEntry, b: ExistingEntry)
    requires a.formats != map[] && b.formats != map[] && Unmarked(a.formats) && Unmarked(b.formats)
    ensures PreservedAsset(a) == PreservedAsset(b) <==> SameFrames(a.formats, b.formats)
  {
    hide SortedOf;
    hide Joined;
    SortedOfSpec(a.formats.Keys);
    SortedOfSpec(b.formats.Keys);
    var xs, ys := SortedOf(a.formats.Keys), SortedOf(b.formats.Keys);
    NotEmpty(a.formats);
    NotEmpty(b.formats);
    if PreservedAsset(a) == PreservedAsset(b) {
      JoinedInjective(xs, a.formats, ys, b.formats);
      forall f ensures f in a.formats.Keys <==> f in b.formats.Keys { assert f in xs <==> f in ys; }
    }
    if SameFrames(a.formats, b.formats) {
      JoinedSame(xs, a.formats, b.formats);
    }
  }

  lemma NotEmpty(refs: Refs)
    requires refs != map[]
    ensures SortedOf(refs.Keys) != []
  {
    hide SortedOf;
    SortedOfSpec(refs.Keys);
    var f :| f in refs;
    assert f in SortedOf(refs.Keys);
  }

  const WIDE := ExistingEntry(100, 1, 0, map[1061 := ExistingFormatRef("F1061_1.ithmb", 0, 6272, 56, 56, 0, 0)])
  const NARROW := ExistingEntry(101, 2, 0, map[1061 := ExistingFormatRef("F1061_1.ithmb", 0, 6272, 28, 56, 28, 0)])

  /** Two entries that show the same bytes in different widths share an asset. */
  lemma GeometryIgnored()
    ensures PreservedAsset(WIDE) == PreservedAsset(NARROW) && WIDE.formats[1061].width != NARROW.formats[1061].width
  {
    assert WIDE.formats.Keys == {1061} == NARROW.formats.Keys;
    SameAssetIff(WIDE, NARROW);
  }
}
