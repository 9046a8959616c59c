/** Records shared by the ArtworkDB planner, writer and reader. */
module ArtworkTypes {
  import opened Bytes

  datatype IthmbLocation = IthmbLocation(filename: string, offset: int)

  /** Location and visible geometry of one frame, as read from an ArtworkDB. */
  datatype ExistingFormatRef = ExistingFormatRef(
    filename: string,
    offset: nat,
    size: nat,
    width: nat,
    height: nat,
    hpad: nat,
    vpad: nat
  )

  /** A frame to be written, or one that is left where it is. */
  datatype FormatPayload =
    | Encoded(data: Bytes, size: int, width: int, height: int, hpad: int, vpad: int)
    | Passthrough(filename: string, offset: int, size: int, width: int, height: int, hpad: int, vpad: int)

  datatype ArtworkEntry = ArtworkEntry(
    imgId: int,
    dbTrackId: int,
    srcImgSize: int,
    formats: map<nat, FormatPayload>
  )

  /** One image item of an existing ArtworkDB, with the frames that can still be used. */
  datatype ExistingEntry = ExistingEntry(
    imgId: nat,
    songId: nat,
    srcImgSize: nat,
    formats: map<nat, ExistingFormatRef>
  )

  function Max(a: int, b: int): int {
    if a < b then b else a
  }

  ghost function Least(s: set<nat>): (m: nat)
    requires s != {}
    ensures m in s && forall x | x in s :: m <= x
  {
    var x :| x in s;
    if s == {x} then x
    else
      var m := Least(s - {x});
      assert forall y | y in s :: y == x || y in s - {x};
      if x < m then x else m
  }

  /** `sorted(s)` */
  ghost function SortedOf(s: set<nat>): seq<nat> {
    if s == {} then []
    else
      var m := Least(s);
      [m] + SortedOf(s - {m})
  }

  lemma {:induction false} SortedOfSpec(s: set<nat>)
    ensures forall x :: x in SortedOf(s) <==> x in s
    ensures forall i, j | 0 <= i < j < |SortedOf(s)| :: SortedOf(s)[i] < SortedOf(s)[j]
    ensures |SortedOf(s)| == |s|
  {
    hide Least;
    if s != {} {
      var m := Least(s);
      var rest := SortedOf(s - {m});
      SortedOfSpec(s - {m});
      assert SortedOf(s) == [m] + rest;
      forall j | 0 <= j < |rest| ensures m < rest[j] {
        assert rest[j] in s - {m};
      }
    }
  }

  lemma SortedStep(s: set<nat>, m: nat)
    requires m in s && forall x | x in s :: m <= x
    ensures SortedOf(s) == [m] + SortedOf(s - {m})
  {
    assert Least(s) == m;
  }

  method SortedKeys(s: set<nat>) returns (r: seq<nat>)
    ensures r == SortedOf(s)
  {
    r := [];
    var rest := s;
    while rest != {}
      invariant r + SortedOf(rest) == SortedOf(s)
      decreases rest
    {
      ghost var least := Least(rest);
      var m :| m in rest && forall x | x in rest :: m <= x;
      SortedStep(rest, m);
      r := r + [m];
      rest := rest - {m};
    }
  }
}
