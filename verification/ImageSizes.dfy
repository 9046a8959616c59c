/** The image size that a rewritten ArtworkDB states for each format: the most common one. */
module ImageSizes {
  import opened ArtworkTypes

  /** The sizes of the frames of a format that have any bytes, in the order of the entries. */
  function Observed(entries: seq<ArtworkEntry>, f: nat): seq<int> {
    if entries == [] then []
    else
      var last := entries[|entries| - 1];
      Observed(entries[..|entries| - 1], f) + (if f in last.formats && last.formats[f].size > 0 then [last.formats[f].size] else [])
  }

  function FirstAt(s: seq<int>, v: int): (i: nat)
    ensures i <= |s| && (i < |s| ==> s[i] == v) && forall j | 0 <= j < i :: s[j] != v
  {
    if s == [] || s[0] == v then 0 else 1 + FirstAt(s[1..], v)
  }

  /** No size is there more often, and those that are there as often come later. */
  ghost predicate IsMostCommon(s: seq<int>, v: int) {
    && v in s
    && forall w | w in s && w != v ::
         multiset(s)[w] < multiset(s)[v] || (multiset(s)[w] == multiset(s)[v] && FirstAt(s, v) < FirstAt(s, w))
  }

  lemma OneMostCommon(s: seq<int>, v: int, w: int)
    requires IsMostCommon(s, v) && IsMostCommon(s, w)
    ensures v == w
  {
  }

  /** Formats of which no frame has any bytes have no size. */
  ghost predicate AreObserved(entries: seq<ArtworkEntry>, formatIds: seq<nat>, sizes: map<nat, int>) {
    && (forall f :: f in sizes <==> f in formatIds && Observed(entries, f) != [])
    && (forall f | f in sizes :: IsMostCommon(Observed(entries, f), sizes[f]))
  }

  method ObservedOf(entries: seq<ArtworkEntry>, f: nat) returns (r: seq<int>)
    ensures r == Observed(entries, f)
  {
    r := [];
    for i := 0 to |entries|
      invariant r == Observed(entries[..i], f)
    {
      assert entries[..i + 1][..i] == entries[..i];
      var e := entries[i];
      if f in e.formats && e.formats[f].size > 0 {
        r := r + [e.formats[f].size];
      }
    }
    assert entries[..|entries|] == entries;
  }

  /** The sizes that occur in some of `s`, in the order in which they occur first. */
  ghost predicate InOrder(s: seq<int>, keys: seq<int>) {
    && (forall v :: v in keys <==> v in s)
    && (forall i, j | 0 <= i < j < |keys| :: FirstAt(s, keys[i]) < FirstAt(s, keys[j]))
  }

  lemma {:induction false} FirstKept(s: seq<int>, x: int, v: int)
    ensures v in s ==> FirstAt(s + [x], v) == FirstAt(s, v)
    ensures x !in s ==> FirstAt(s + [x], x) == |s|
  {
    var all := s + [x];
    assert all[|s|] == x && forall j | 0 <= j < |s| :: all[j] == s[j];
    if v in s {
      assert all[FirstAt(s, v)] == v && forall j | 0 <= j < FirstAt(s, v) :: all[j] != v;
    }
  }

  lemma OrderKept(s: seq<int>, keys: seq<int>, x: int)
    requires InOrder(s, keys)
    ensures InOrder(s + [x], if x in keys then keys else keys + [x])
  {
    hide FirstAt;
    forall v ensures v in s ==> FirstAt(s + [x], v) == FirstAt(s, v) < |s| {
      FirstKept(s, x, v);
      FirstInside(s, v);
    }
    FirstKept(s, x, x);
    assert forall i | 0 <= i < |keys| :: keys[i] in keys;
  }

  lemma FirstInside(s: seq<int>, v: int)
    ensures v in s ==> FirstAt(s, v) < |s|
  {
    if v in s {
      var j :| 0 <= j < |s| && s[j] == v;
    }
  }

  /** `Counter(s)`: how often each size occurs, the first met first. */
  method CountAll(s: seq<int>) returns (keys: seq<int>, counts: map<int, nat>)
    ensures InOrder(s, keys) && forall v | v in keys :: v in counts && counts[v] == multiset(s)[v]
  {
    keys, counts := [], map[];
    for i := 0 to |s|
      invariant InOrder(s[..i], keys)
      invariant forall v :: v in counts <==> v in keys
      invariant forall v | v in keys :: counts[v] == multiset(s[..i])[v]
    {
      var x := s[i];
      assert s[..i + 1] == s[..i] + [x];
      OrderKept(s[..i], keys, x);
      hide InOrder;
      if x in counts {
        counts := counts[x := counts[x] + 1];
      } else {
        NotThere(s[..i], keys, x);
        keys := keys + [x];
        counts := counts[x := 1];
      }
    }
    assert s[..|s|] == s;
  }

  lemma NotThere(s: seq<int>, keys: seq<int>, x: int)
    requires InOrder(s, keys) && x !in keys
    ensures multiset(s)[x] == 0
  {
    assert x !in s;
  }

  /** `Counter(s).most_common(1)[0][0]` */
  method MostCommon(s: seq<int>) returns (v: int)
    requires s != []
    ensures IsMostCommon(s, v)
  {
    var keys, counts := CountAll(s);
    var first := s[0];
    assert first in s;
    assert first in keys;
    v := keys[0];
    ghost var at := 0;
    for i := 1 to |keys|
      invariant 0 <= at < i && at < |keys| && v == keys[at]
      invariant forall j | 0 <= j < i && j != at :: counts[keys[j]] < counts[v] || (counts[keys[j]] == counts[v] && at < j)
    {
      if counts[keys[i]] > counts[v] {
        v, at := keys[i], i;
      }
    }
    forall w | w in s && w != v
      ensures multiset(s)[w] < multiset(s)[v] || (multiset(s)[w] == multiset(s)[v] && FirstAt(s, v) < FirstAt(s, w))
    {
      assert w in keys;
      var j :| 0 <= j < |keys| && keys[j] == w;
    }
  }

  /** The sizes of all formats. */
  method ObservedSizes(entries: seq<ArtworkEntry>, formatIds: seq<nat>) returns (sizes: map<nat, int>)
    ensures AreObserved(entries, formatIds, sizes)
  {
    hide IsMostCommon;
    hide Observed;
    sizes := map[];
    for i := 0 to |formatIds|
      invariant AreObserved(entries, formatIds[..i], sizes)
    {
      var f := formatIds[i];
      assert formatIds[..i + 1] == formatIds[..i] + [f];
      var observed := ObservedOf(entries, f);
      if observed != [] {
        var size := MostCommon(observed);
        sizes := sizes[f := size];
      }
    }
    assert formatIds[..|formatIds|] == formatIds;
  }
}
