/** Iterating over the keys of a dict. */
module Keys {
  /** The keys, each once, in some order. */
  method Listed<T(==)>(keys: set<T>) returns (order: seq<T>)
    ensures forall x :: x in order <==> x in keys
    ensures forall i, j | 0 <= i < j < |order| :: order[i] != order[j]
  {
    order := [];
    var todo := keys;
    while todo != {}
      invariant todo <= keys
      invariant forall x :: x in order <==> x in keys - todo
      invariant forall i, j | 0 <= i < j < |order| :: order[i] != order[j]
      decreases todo
    {
      var x :| x in todo;
      assert x !in order;
      order := order + [x];
      todo := todo - {x};
    }
  }
}
