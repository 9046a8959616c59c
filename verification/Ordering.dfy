/** Total orders on sequences, and the sorted lists that Python's `sorted` returns for them. */
module Ordering {

  ghost predicate StrictTotal<T(!new)>(less: (T, T) -> bool) {
    && (forall x :: !less(x, x))
    && (forall x, y, z :: less(x, y) && less(y, z) ==> less(x, z))
    && (forall x, y :: x == y || less(x, y) || less(y, x))
  }

  /** Lexicographic order: the first difference decides, a proper prefix comes first. */
  predicate Lex<T(==)>(less: (T, T) -> bool, a: seq<T>, b: seq<T>) {
    if b == [] then false
    else if a == [] then true
    else if a[0] == b[0] then Lex(less, a[1..], b[1..])
    else less(a[0], b[0])
  }

  lemma {:induction false} LexTotal<T(!new)>(less: (T, T) -> bool, a: seq<T>, b: seq<T>)
    requires StrictTotal(less)
    ensures a == b || Lex(less, a, b) || Lex(less, b, a)
    ensures !Lex(less, a, a)
  {
    if a != [] {
      LexTotal(less, a[1..], if b == [] then [] else b[1..]);
      if b != [] && a[0] == b[0] && a[1..] == b[1..] {
        assert a == [a[0]] + a[1..] == b;
      }
    }
  }

  lemma {:induction false} LexTransitive<T(!new)>(less: (T, T) -> bool, a: seq<T>, b: seq<T>, c: seq<T>)
    requires StrictTotal(less)
    requires Lex(less, a, b) && Lex(less, b, c)
    ensures Lex(less, a, c)
  {
    if a != [] && a[0] == b[0] && b[0] == c[0] {
      LexTransitive(less, a[1..], b[1..], c[1..]);
    }
  }

  lemma LexStrictTotal<T(!new)>(less: (T, T) -> bool)
    requires StrictTotal(less)
    ensures StrictTotal((a: seq<T>, b: seq<T>) => Lex(less, a, b))
  {
    forall a: seq<T>, b: seq<T> {
      LexTotal(less, a, b);
    }
    forall a: seq<T>, b: seq<T>, c: seq<T> | Lex(less, a, b) && Lex(less, b, c) {
      LexTransitive(less, a, b, c);
    }
  }

  ghost predicate Ascending<T>(less: (T, T) -> bool, s: seq<T>) {
    forall i, j | 0 <= i < j < |s| :: less(s[i], s[j])
  }

  ghost function Elements<T>(s: seq<T>): set<T> {
    set x | x in s
  }

  function Insert<T(==)>(less: (T, T) -> bool, x: T, s: seq<T>): seq<T> {
    if s == [] || less(x, s[0]) then [x] + s else [s[0]] + Insert(less, x, s[1..])
  }

  /** Python's `sorted` on a list of distinct values. */
  function Sorted<T(==)>(less: (T, T) -> bool, s: seq<T>): seq<T> {
    if s == [] then [] else Insert(less, s[0], Sorted(less, s[1..]))
  }

  lemma {:induction false} InsertAscending<T(!new)>(less: (T, T) -> bool, x: T, s: seq<T>)
    requires StrictTotal(less)
    requires Ascending(less, s) && x !in s
    ensures Ascending(less, Insert(less, x, s))
    ensures Elements(Insert(less, x, s)) == Elements(s) + {x}
    ensures |Insert(less, x, s)| == |s| + 1
  {
    if s != [] && !less(x, s[0]) {
      InsertAscending(less, x, s[1..]);
      var rest := Insert(less, x, s[1..]);
      forall y | y in rest ensures less(s[0], y) {
        assert y in Elements(rest);
        if y != x {
          var k :| 0 <= k < |s[1..]| && s[1..][k] == y;
          assert s[k + 1] == y;
        }
      }
      assert s == [s[0]] + s[1..];
      forall y ensures y in Elements([s[0]] + rest) <==> y in Elements(s) + {x} {
        assert y in rest <==> y in Elements(rest);
      }
    } else if s != [] {
      forall j | 0 <= j < |s| ensures less(x, s[j]) {
        if j > 0 { assert less(s[0], s[j]); }
      }
    }
  }

  lemma {:induction false} SortedSorts<T(!new)>(less: (T, T) -> bool, s: seq<T>)
    requires StrictTotal(less)
    requires forall i, j | 0 <= i < j < |s| :: s[i] != s[j]
    ensures Ascending(less, Sorted(less, s))
    ensures Elements(Sorted(less, s)) == Elements(s)
    ensures |Sorted(less, s)| == |s|
  {
    if s != [] {
      SortedSorts(less, s[1..]);
      var rest := Sorted(less, s[1..]);
      assert s[0] !in Elements(rest);
      InsertAscending(less, s[0], rest);
      assert s == [s[0]] + s[1..];
    }
  }

  /** An ascending list is determined by its elements. */
  lemma {:induction false} AscendingUnique<T(!new)>(less: (T, T) -> bool, s: seq<T>, t: seq<T>)
    requires StrictTotal(less)
    requires Ascending(less, s) && Ascending(less, t)
    requires Elements(s) == Elements(t)
    ensures s == t
  {
    if t != [] { assert t[0] in Elements(t); }
    if s == [] {
      assert Elements(s) == {};
    } else {
      assert s[0] in Elements(t);
      assert t != [];
      assert t[0] in Elements(s);
      assert s[0] == t[0];
      forall x ensures x in Elements(s[1..]) <==> x in Elements(t[1..]) {
        assert x in Elements(s[1..]) <==> x in Elements(s) && x != s[0] by { TailElements(less, s, x); }
        assert x in Elements(t[1..]) <==> x in Elements(t) && x != t[0] by { TailElements(less, t, x); }
      }
      AscendingUnique(less, s[1..], t[1..]);
      assert s == [s[0]] + s[1..] == t;
    }
  }

  lemma TailElements<T(!new)>(less: (T, T) -> bool, s: seq<T>, x: T)
    requires StrictTotal(less) && Ascending(less, s) && s != []
    ensures x in s[1..] <==> x in s && x != s[0]
  {
    if x in s && x != s[0] {
      var k :| 0 <= k < |s| && s[k] == x;
      assert s[1..][k - 1] == x;
    }
    if x in s[1..] {
      var k :| 0 <= k < |s[1..]| && s[1..][k] == x;
      assert less(s[0], s[k + 1]);
    }
  }
}
