/** The storage report: bytes of a chunk tree, merged by label at every depth. */
module StorageReport {
  import opened Outcomes
  import opened Bytes
  import opened StorageWalk

  /** Data objects of one label. */
  datatype Objects = Objects(mhodType: Option<nat>, bytes: nat, count: nat, payload: nat)

  /** Everything of one label inside one container. */
  datatype Container = Container(name: string, bytes: nat, header: nat, count: nat,
                                 objects: map<string, Objects>, children: map<string, Container>)

  /** Readable names of chunks and data objects. */
  datatype Labels = Labels(chunk: string -> string, mhod: Option<nat> -> string)

  function Empty(name: string): Container {
    Container(name, 0, 0, 0, map[], map[])
  }

  function ObjectsAt(c: Container, name: string, mhodType: Option<nat>): Objects {
    if name in c.objects then c.objects[name] else Objects(mhodType, 0, 0, 0)
  }

  function ChildAt(c: Container, name: string): Container {
    if name in c.children then c.children[name] else Empty(name)
  }

  /** One data object added. */
  function WithObject(c: Container, labels: Labels, r: ChunkRecord): Container {
    var name := labels.mhod(r.mhodType);
    var stats := ObjectsAt(c, name, r.mhodType);
    c.(objects := c.objects[name := Objects(stats.mhodType, stats.bytes + r.total, stats.count + 1, stats.payload + r.payload)])
  }

  /** `_accumulate_container` */
  function Accumulated(c: Container, labels: Labels, r: ChunkRecord): Container
    decreases r
  {
    AccumulatedAll(c.(bytes := c.bytes + r.total, header := c.header + r.header, count := c.count + 1), labels, r.children)
  }

  function AccumulatedAll(c: Container, labels: Labels, row: seq<ChunkRecord>): Container
    decreases row
  {
    if row == [] then c
    else if row[0].tag == "mhod" then AccumulatedAll(WithObject(c, labels, row[0]), labels, row[1..])
    else
      var name := labels.chunk(row[0].tag);
      var child := Accumulated(ChildAt(c, name), labels, row[0]);
      AccumulatedAll(c.(children := c.children[name := child]), labels, row[1..])
  }

  method AccumulateContainer(before: Container, labels: Labels, chunk: ChunkRecord) returns (c: Container)
    ensures c == Accumulated(before, labels, chunk)
    decreases chunk
  {
    c := before.(bytes := before.bytes + chunk.total, header := before.header + chunk.header, count := before.count + 1);
    var i := 0;
    while i < |chunk.children|
      invariant 0 <= i <= |chunk.children|
      invariant AccumulatedAll(c, labels, chunk.children[i..]) == Accumulated(before, labels, chunk)
    {
      var child := chunk.children[i];
      assert chunk.children[i..][0] == child && chunk.children[i..][1..] == chunk.children[i + 1..];
      if child.tag == "mhod" {
        c := WithObject(c, labels, child);
      } else {
        var name := labels.chunk(child.tag);
        var inner := AccumulateContainer(ChildAt(c, name), labels, child);
        c := c.(children := c.children[name := inner]);
      }
      i := i + 1;
    }
  }

  type Sizes = map<string, nat>

  /** Total over the labels of a container. */
  ghost function Total(sizes: Sizes): nat {
    if sizes == map[] then 0
    else
      var k :| k in sizes;
      sizes[k] + Total(sizes - {k})
  }

  lemma {:induction false} TotalWithout(sizes: Sizes, k: string)
    requires k in sizes
    ensures Total(sizes) == sizes[k] + Total(sizes - {k})
    decreases sizes.Keys
  {
    var j :| j in sizes && Total(sizes) == sizes[j] + Total(sizes - {j});
    if j != k {
      TotalWithout(sizes - {j}, k);
      TotalWithout(sizes - {k}, j);
      assert sizes - {j} - {k} == sizes - {k} - {j};
    }
  }

  lemma TotalUpdate(sizes: Sizes, k: string, n: nat)
    ensures Total(sizes[k := n]) == Total(sizes) - (if k in sizes then sizes[k] else 0) + n
  {
    var after := sizes[k := n];
    TotalWithout(after, k);
    assert after - {k} == sizes - {k};
    if k in sizes {
      TotalWithout(sizes, k);
    } else {
      assert sizes - {k} == sizes;
    }
  }

  ghost function ObjectSizes(c: Container): Sizes {
    map k | k in c.objects :: c.objects[k].bytes
  }

  ghost function ChildSizes(c: Container): Sizes {
    map k | k in c.children :: c.children[k].bytes
  }

  /** Bytes that the parts of a container account for. */
  ghost function Accounted(c: Container): nat {
    c.header + Total(ObjectSizes(c)) + Total(ChildSizes(c))
  }

  /** At every depth, the parts of a container account for no more bytes than it has. */
  ghost predicate Fits(c: Container)
    decreases c
  {
    Accounted(c) <= c.bytes && forall k | k in c.children :: Fits(c.children[k])
  }

  function TotalOf(row: seq<ChunkRecord>): nat {
    if row == [] then 0 else row[0].total + TotalOf(row[1..])
  }

  /** At every depth, a chunk is at least as long as its header and its children. */
  ghost predicate Nested(r: ChunkRecord)
    decreases r
  {
    r.header + TotalOf(r.children) <= r.total && forall c | c in r.children :: Nested(c)
  }

  lemma {:induction false} AccumulatedBytes(c: Container, labels: Labels, row: seq<ChunkRecord>)
    ensures var after := AccumulatedAll(c, labels, row);
            after.bytes == c.bytes && after.header == c.header && after.name == c.name
    decreases row
  {
    hide WithObject;
    if row != [] {
      if row[0].tag == "mhod" {
        ObjectBytes(c, labels, row[0]);
        AccumulatedBytes(WithObject(c, labels, row[0]), labels, row[1..]);
      } else {
        var name := labels.chunk(row[0].tag);
        AccumulatedBytes(c.(children := c.children[name := Accumulated(ChildAt(c, name), labels, row[0])]), labels, row[1..]);
      }
    }
  }

  lemma ObjectBytes(c: Container, labels: Labels, r: ChunkRecord)
    ensures var after := WithObject(c, labels, r);
      && after.bytes == c.bytes && after.header == c.header && after.name == c.name && after.children == c.children
      && Accounted(after) == Accounted(c) + r.total
  {
    var name := labels.mhod(r.mhodType);
    var after := WithObject(c, labels, r);
    assert ObjectSizes(after) == ObjectSizes(c)[name := after.objects[name].bytes];
    TotalUpdate(ObjectSizes(c), name, after.objects[name].bytes);
    assert ChildSizes(after) == ChildSizes(c);
  }

  lemma ChildBytes(c: Container, name: string, child: Container)
    ensures var after := c.(children := c.children[name := child]);
            Accounted(after) == Accounted(c) - ChildAt(c, name).bytes + child.bytes
  {
    var after := c.(children := c.children[name := child]);
    assert ChildSizes(after) == ChildSizes(c)[name := child.bytes];
    TotalUpdate(ChildSizes(c), name, child.bytes);
    assert ObjectSizes(after) == ObjectSizes(c);
  }

  lemma EmptyFits(name: string)
    ensures Fits(Empty(name)) && Accounted(Empty(name)) == 0
  {
    assert ObjectSizes(Empty(name)) == map[] && ChildSizes(Empty(name)) == map[];
  }

  /** Merging a nested chunk into a container that fits leaves one that fits. */
  lemma {:induction false} AccumulatedFits(c: Container, labels: Labels, r: ChunkRecord)
    requires Fits(c) && Nested(r)
    ensures Fits(Accumulated(c, labels, r)) && Accumulated(c, labels, r).bytes == c.bytes + r.total
    decreases r
  {
    hide Total;
    var before := c.(bytes := c.bytes + r.total, header := c.header + r.header, count := c.count + 1);
    assert ObjectSizes(before) == ObjectSizes(c) && ChildSizes(before) == ChildSizes(c);
    AccumulatedBytes(before, labels, r.children);
    AccumulatedAllFits(before, labels, r.children);
  }

  lemma {:induction false} AccumulatedAllFits(c: Container, labels: Labels, row: seq<ChunkRecord>)
    requires forall k | k in c.children :: Fits(c.children[k])
    requires forall r | r in row :: Nested(r)
    ensures var after := AccumulatedAll(c, labels, row);
            Accounted(after) == Accounted(c) + TotalOf(row) && forall k | k in after.children :: Fits(after.children[k])
    decreases row
  {
    hide WithObject;
    hide Accounted;
    hide Fits;
    if row != [] {
      var r := row[0];
      if r.tag == "mhod" {
        ObjectBytes(c, labels, r);
        AccumulatedAllFits(WithObject(c, labels, r), labels, row[1..]);
      } else {
        var name := labels.chunk(r.tag);
        EmptyFits(name);
        AccumulatedFits(ChildAt(c, name), labels, r);
        var child := Accumulated(ChildAt(c, name), labels, r);
        ChildBytes(c, name, child);
        AccumulatedAllFits(c.(children := c.children[name := child]), labels, row[1..]);
      }
    }
  }

  /** The chunks of a printed tree are nested. */
  lemma {:induction false} PrintedNested(c: Chunk, offset: nat)
    requires WellFormed(c)
    ensures Nested(RecordOf(c, offset))
    decreases c
  {
    hide StringBytes;
    hide Print;
    hide PrintAll;
    PrintLength(c);
    PrintedAllNested(c.children, offset + c.HeaderLength());
  }

  lemma {:induction false} PrintedAllNested(row: seq<Chunk>, offset: nat)
    requires forall c | c in row :: WellFormed(c)
    ensures TotalOf(RecordsOf(row, offset)) == |PrintAll(row)|
    ensures forall r | r in RecordsOf(row, offset) :: Nested(r)
    decreases row
  {
    hide WellFormed;
    hide Print;
    hide Nested;
    if row != [] {
      RecordTotal(row[0], offset);
      PrintedNested(row[0], offset);
      PrintedAllNested(row[1..], offset + |Print(row[0])|);
      var rest := RecordsOf(row[1..], offset + |Print(row[0])|);
      assert RecordsOf(row, offset)[1..] == rest;
    }
  }

  lemma RecordTotal(c: Chunk, offset: nat)
    requires WellFormed(c)
    ensures RecordOf(c, offset).total == |Print(c)|
  {
  }

  /** A row of the report. */
  datatype Node = Node(name: string, bytes: nat, kind: string, mhodType: Option<nat>, children: seq<Node>)

  function Sum(nodes: seq<Node>): nat {
    if nodes == [] then 0 else Sum(nodes[..|nodes| - 1]) + nodes[|nodes| - 1].bytes
  }

  lemma {:induction false} SumConcat(a: seq<Node>, b: seq<Node>)
    ensures Sum(a + b) == Sum(a) + Sum(b)
  {
    if b == [] {
      assert a + b == a;
    } else {
      assert (a + b)[..|a + b| - 1] == a + b[..|b| - 1];
      SumConcat(a, b[..|b| - 1]);
    }
  }

  lemma SumOne(node: Node)
    ensures Sum([node]) == node.bytes
  {
    assert [node][..|[node]| - 1] == [];
  }

  /** The rows that stand for the sum of others. */
  const GROUPS: set<string> := {"container", "classic_database", "mhod_group"}

  /** At every depth, a row that groups others has as many bytes as they have together. */
  ghost predicate Conserves(n: Node)
    decreases n
  {
    (n.kind in GROUPS ==> n.bytes == Sum(n.children)) && forall m | m in n.children :: Conserves(m)
  }

  /** The names of a map of sizes, largest first: `sorted(..., key=lambda v: (-v.bytes_used, ...))`. */
  ghost predicate IsOrder(sizes: Sizes, order: seq<string>) {
    && (forall k :: k in order <==> k in sizes)
    && (forall i, j | 0 <= i < j < |order| :: order[i] != order[j] && sizes[order[i]] >= sizes[order[j]])
  }

  lemma {:induction false} HasLargest(sizes: Sizes)
    requires sizes != map[]
    ensures exists k :: k in sizes && forall j | j in sizes :: sizes[j] <= sizes[k]
    decreases sizes.Keys
  {
    var k :| k in sizes;
    if sizes - {k} == map[] {
      assert forall j | j in sizes :: j == k || j in sizes - {k};
    } else {
      HasLargest(sizes - {k});
      var m :| m in sizes - {k} && forall j | j in sizes - {k} :: (sizes - {k})[j] <= (sizes - {k})[m];
      assert forall j | j in sizes :: j == k || j in sizes - {k};
      assert sizes[k] > sizes[m] ==> forall j | j in sizes :: sizes[j] <= sizes[k];
      assert sizes[k] <= sizes[m] ==> forall j | j in sizes :: sizes[j] <= sizes[m];
    }
  }

  method SortedNames(sizes: Sizes) returns (order: seq<string>)
    ensures IsOrder(sizes, order)
  {
    order := [];
    var todo := sizes;
    while todo != map[]
      invariant todo.Keys <= sizes.Keys && forall k | k in todo :: todo[k] == sizes[k]
      invariant forall k :: k in order <==> k in sizes.Keys - todo.Keys
      invariant forall i, j | 0 <= i < j < |order| ::
        order[i] in sizes && order[j] in sizes && order[i] != order[j] && sizes[order[i]] >= sizes[order[j]]
      invariant forall i, k | 0 <= i < |order| && k in todo :: order[i] in sizes && sizes[order[i]] >= todo[k]
      decreases |todo|
    {
      HasLargest(todo);
      var k :| k in todo && forall j | j in todo :: todo[j] <= todo[k];
      assert k !in order;
      order := order + [k];
      todo := todo - {k};
    }
  }

  /** Rows for the names of an order, with the sizes they have. */
  ghost predicate RowsFor(sizes: Sizes, order: seq<string>, nodes: seq<Node>) {
    |nodes| == |order| && forall i | 0 <= i < |order| :: order[i] in sizes && nodes[i].bytes == sizes[order[i]]
  }

  lemma {:induction false} RowsTotal(sizes: Sizes, order: seq<string>, nodes: seq<Node>)
    requires (forall k :: k in order <==> k in sizes) && forall i, j | 0 <= i < j < |order| :: order[i] != order[j]
    requires RowsFor(sizes, order, nodes)
    ensures Sum(nodes) == Total(sizes)
    decreases |order|
  {
    hide Total;
    hide Sum;
    if order == [] {
      NothingTotal();
      assert nodes == [];
      assert sizes == map[];
    } else {
      var n := |order| - 1;
      var k := order[n];
      WithoutLast(sizes, order, nodes);
      RowsTotal(sizes - {k}, order[..n], nodes[..n]);
      TotalWithout(sizes, k);
      SumLast(nodes);
    }
  }

  lemma NothingTotal()
    ensures Total(map[]) == 0 && Sum([]) == 0
  {
  }

  lemma WithoutLast(sizes: Sizes, order: seq<string>, nodes: seq<Node>)
    requires (forall k :: k in order <==> k in sizes) && (forall i, j | 0 <= i < j < |order| :: order[i] != order[j]) && order != []
    requires RowsFor(sizes, order, nodes)
    ensures var n := |order| - 1;
      && order[n] in sizes && nodes[n].bytes == sizes[order[n]]
      && (forall k :: k in order[..n] <==> k in sizes - {order[n]})
      && RowsFor(sizes - {order[n]}, order[..n], nodes[..n])
  {
    assert order == order[..|order| - 1] + [order[|order| - 1]];
  }

  lemma SumLast(nodes: seq<Node>)
    requires nodes != []
    ensures Sum(nodes) == Sum(nodes[..|nodes| - 1]) + nodes[|nodes| - 1].bytes
  {
  }

  /** One row for each label of data objects, with the label's type and bytes, largest first. */
  ghost predicate ObjectRows(objects: map<string, Objects>, nodes: seq<Node>) {
    && (forall k | k in objects :: exists i :: 0 <= i < |nodes| && nodes[i].name == k)
    && (forall i | 0 <= i < |nodes| :: nodes[i].name in objects
          && nodes[i] == Node(nodes[i].name, objects[nodes[i].name].bytes, "mhod", objects[nodes[i].name].mhodType, []))
    && (forall i, j | 0 <= i < j < |nodes| :: nodes[i].name != nodes[j].name && nodes[i].bytes >= nodes[j].bytes)
  }

  /** `_data_object_nodes` */
  method DataObjectNodes(objects: map<string, Objects>) returns (nodes: seq<Node>)
    ensures ObjectRows(objects, nodes)
    ensures Sum(nodes) == Total(map k | k in objects :: objects[k].bytes)
    ensures forall n | n in nodes :: Conserves(n)
  {
    hide Sum;
    hide Total;
    var sizes: Sizes := map k | k in objects :: objects[k].bytes;
    var order := SortedNames(sizes);
    nodes := [];
    for i := 0 to |order|
      invariant RowsFor(sizes, order[..i], nodes)
      invariant forall n | n in nodes :: Conserves(n)
      invariant forall j | 0 <= j < i :: order[j] in objects
                  && nodes[j] == Node(order[j], objects[order[j]].bytes, "mhod", objects[order[j]].mhodType, [])
    {
      assert order[..i + 1] == order[..i] + [order[i]] && order[i] in order;
      nodes := nodes + [Node(order[i], objects[order[i]].bytes, "mhod", objects[order[i]].mhodType, [])];
    }
    assert order[..|order|] == order;
    RowsTotal(sizes, order, nodes);
    OrderedRows(objects, sizes, order, nodes);
  }

  lemma OrderedRows(objects: map<string, Objects>, sizes: Sizes, order: seq<string>, nodes: seq<Node>)
    requires IsOrder(sizes, order) && sizes == (map k | k in objects :: objects[k].bytes) && |nodes| == |order|
    requires forall j | 0 <= j < |order| :: order[j] in objects
               && nodes[j] == Node(order[j], objects[order[j]].bytes, "mhod", objects[order[j]].mhodType, [])
    ensures ObjectRows(objects, nodes)
  {
    forall k | k in objects ensures exists i :: 0 <= i < |nodes| && nodes[i].name == k {
      assert k in order;
      var i :| 0 <= i < |order| && order[i] == k;
      assert nodes[i].name == k;
    }
  }

  /** The row of a container, at every depth: a row for its headers, one that groups its data objects, a
      row for each label of containers inside it, largest first, and one for what is left. */
  ghost predicate IsRow(c: Container, kind: string, n: Node)
    decreases c
  {
    && n.name == c.name && n.bytes == c.bytes && n.kind == kind && n.mhodType == None
    && exists objects: seq<Node>, inner: seq<Node> :: RowParts(c, n, objects, inner)
         && ObjectRows(c.objects, objects)
         && (forall k | k in c.children :: exists i :: 0 <= i < |inner| && IsRow(c.children[k], "container", inner[i]))
         && |inner| == |c.children|
         && (forall i, j | 0 <= i < j < |inner| :: inner[i].bytes >= inner[j].bytes)
  }

  ghost predicate RowParts(c: Container, n: Node, objects: seq<Node>, inner: seq<Node>) {
    n.children == (if c.header > 0 then [Node("Header", c.header, "chunk_header", None, [])] else [])
      + (if c.objects != map[] then [Node("Data objects", Sum(objects), "mhod_group", None, objects)] else [])
      + inner
      + (if c.bytes > Accounted(c) then [Node("Unattributed bytes", c.bytes - Accounted(c), "unknown", None, [])] else [])
  }

  /** `_container_node`; its rows add up, at every depth, exactly when the container fits. */
  method ContainerNode(c: Container, kind: string) returns (node: Node)
    requires kind in GROUPS
    ensures IsRow(c, kind, node) && node.name == c.name && node.bytes == c.bytes && node.kind == kind
    ensures Conserves(node) <==> Fits(c)
    decreases c, 1
  {
    hide IsRow;
    hide ObjectRows;
    hide Sum;
    hide Total;
    hide Conserves;
    hide Fits;
    hide AllConserve;
    var header := HeaderRow(c);
    ghost var grouped: seq<Node>;
    var objects: seq<Node>;
    objects, grouped := ObjectsRow(c);
    var order, nodes := ChildNodes(c);
    var objectTotal := SumRows(objects);
    var childTotal := SumRows(nodes);
    var accounted := c.header + objectTotal + childTotal;
    var rest := if c.bytes > accounted then [Node("Unattributed bytes", c.bytes - accounted, "unknown", None, [])] else [];
    node := Node(c.name, c.bytes, kind, None, header + objects + nodes + rest);
    Assembled(c, header, objects, order, nodes, rest, node);
    RowAssembled(c, kind, ChildSizes(c), order, grouped, nodes, node);
  }

  /** The rows of the containers inside a container, largest first. */
  method ChildNodes(c: Container) returns (order: seq<string>, nodes: seq<Node>)
    ensures IsOrder(ChildSizes(c), order) && RowsFor(ChildSizes(c), order, nodes) && Sum(nodes) == Total(ChildSizes(c))
    ensures forall j | 0 <= j < |order| :: order[j] in c.children && (Conserves(nodes[j]) <==> Fits(c.children[order[j]]))
                                           && IsRow(c.children[order[j]], "container", nodes[j])
    decreases c, 0
  {
    hide IsRow;
    hide Sum;
    hide Total;
    hide Conserves;
    hide Fits;
    var sizes: Sizes := map k | k in c.children :: c.children[k].bytes;
    order := SortedNames(sizes);
    nodes := [];
    for i := 0 to |order|
      invariant RowsFor(sizes, order[..i], nodes)
      invariant forall j | 0 <= j < i :: order[j] in c.children && (Conserves(nodes[j]) <==> Fits(c.children[order[j]]))
                                         && IsRow(c.children[order[j]], "container", nodes[j])
    {
      assert order[..i + 1] == order[..i] + [order[i]] && order[i] in order;
      var child := ContainerNode(c.children[order[i]], "container");
      nodes := nodes + [child];
    }
    assert order[..|order|] == order;
    RowsTotal(sizes, order, nodes);
  }

  lemma RowAssembled(c: Container, kind: string, sizes: Sizes, order: seq<string>, grouped: seq<Node>, nodes: seq<Node>, n: Node)
    requires n.name == c.name && n.bytes == c.bytes && n.kind == kind && n.mhodType == None
    requires RowParts(c, n, grouped, nodes) && ObjectRows(c.objects, grouped)
    requires sizes == (map k | k in c.children :: c.children[k].bytes) && IsOrder(sizes, order) && RowsFor(sizes, order, nodes)
    requires forall j | 0 <= j < |order| :: order[j] in c.children && IsRow(c.children[order[j]], "container", nodes[j])
    ensures IsRow(c, kind, n)
  {
    hide RowParts;
    hide ObjectRows;
    InnerRows(c, sizes, order, nodes);
    hide RowsFor;
    hide IsOrder;
  }

  lemma InnerRows(c: Container, sizes: Sizes, order: seq<string>, nodes: seq<Node>)
    requires sizes == (map k | k in c.children :: c.children[k].bytes) && IsOrder(sizes, order) && RowsFor(sizes, order, nodes)
    requires forall j | 0 <= j < |order| :: order[j] in c.children && IsRow(c.children[order[j]], "container", nodes[j])
    ensures forall k | k in c.children :: exists i :: 0 <= i < |nodes| && IsRow(c.children[k], "container", nodes[i])
    ensures |nodes| == |c.children| && forall i, j | 0 <= i < j < |nodes| :: nodes[i].bytes >= nodes[j].bytes
  {
    hide IsRow;
    forall k | k in c.children ensures exists i :: 0 <= i < |nodes| && IsRow(c.children[k], "container", nodes[i]) {
      assert k in order;
      var i :| 0 <= i < |order| && order[i] == k;
    }
    OrderSize(order, c.children.Keys);
    assert |c.children| == |c.children.Keys|;
  }

  lemma {:induction false} OrderSize(order: seq<string>, keys: set<string>)
    requires (forall k :: k in order <==> k in keys) && forall i, j | 0 <= i < j < |order| :: order[i] != order[j]
    ensures |order| == |keys|
    decreases |order|
  {
    if order == [] {
      assert keys == {};
    } else {
      var n := |order| - 1;
      assert order == order[..n] + [order[n]];
      assert order[n] in keys;
      OrderSize(order[..n], keys - {order[n]});
    }
  }

  /** The row that groups the data objects of a container. */
  method ObjectsRow(c: Container) returns (rows: seq<Node>, ghost nodes: seq<Node>)
    ensures Sum(rows) == Total(ObjectSizes(c)) && AllConserve(rows) && ObjectRows(c.objects, nodes)
    ensures rows == if c.objects != map[] then [Node("Data objects", Sum(nodes), "mhod_group", None, nodes)] else []
  {
    var made := DataObjectNodes(c.objects);
    nodes := made;
    rows := [];
    if c.objects != map[] {
      var total := SumRows(made);
      rows := [Node("Data objects", total, "mhod_group", None, made)];
      SumOne(rows[0]);
    }
  }

  ghost predicate AllConserve(nodes: seq<Node>) {
    forall n | n in nodes :: Conserves(n)
  }

  /** The rows of a container add up to its bytes unless its parts overrun it. */
  lemma RowsSum(c: Container, header: seq<Node>, objects: seq<Node>, nodes: seq<Node>, rest: seq<Node>)
    requires Sum(header) == c.header && Sum(objects) == Total(ObjectSizes(c)) && Sum(nodes) == Total(ChildSizes(c))
    requires rest == if c.bytes > Accounted(c) then [Node("Unattributed bytes", c.bytes - Accounted(c), "unknown", None, [])] else []
    ensures Sum(header + objects + nodes + rest) == if c.bytes > Accounted(c) then c.bytes else Accounted(c)
    ensures AllConserve(rest)
  {
    hide Total;
    SumConcat(header, objects);
    SumConcat(header + objects, nodes);
    SumConcat(header + objects + nodes, rest);
    if rest != [] {
      SumOne(rest[0]);
    }
  }

  lemma ChildrenConserve(c: Container, order: seq<string>, nodes: seq<Node>)
    requires |nodes| == |order| && forall k :: k in order <==> k in c.children
    requires forall j | 0 <= j < |order| :: order[j] in c.children && (Conserves(nodes[j]) <==> Fits(c.children[order[j]]))
    ensures AllConserve(nodes) <==> forall k | k in c.children :: Fits(c.children[k])
  {
    hide Conserves;
    hide Fits;
    if AllConserve(nodes) {
      forall k | k in c.children ensures Fits(c.children[k]) {
        var j :| 0 <= j < |order| && order[j] == k;
        assert nodes[j] in nodes;
      }
    }
  }

  lemma AllConserveConcat(a: seq<Node>, b: seq<Node>)
    ensures AllConserve(a + b) <==> AllConserve(a) && AllConserve(b)
  {
    hide Conserves;
    assert forall n :: n in a + b <==> n in a || n in b;
  }

  /** Header, data objects, children and the rest make up a container exactly when its parts do not
      overrun it. */
  lemma Assembled(c: Container, header: seq<Node>, objects: seq<Node>, order: seq<string>, nodes: seq<Node>, rest: seq<Node>, node: Node)
    requires Sum(header) == c.header && AllConserve(header)
    requires Sum(objects) == Total(ObjectSizes(c)) && AllConserve(objects)
    requires Sum(nodes) == Total(ChildSizes(c)) && |nodes| == |order| && forall k :: k in order <==> k in c.children
    requires forall j | 0 <= j < |order| :: order[j] in c.children && (Conserves(nodes[j]) <==> Fits(c.children[order[j]]))
    requires rest == if c.bytes > Accounted(c) then [Node("Unattributed bytes", c.bytes - Accounted(c), "unknown", None, [])] else []
    requires node.kind in GROUPS && node.bytes == c.bytes && node.children == header + objects + nodes + rest
    ensures Conserves(node) <==> Fits(c)
  {
    hide Total;
    hide AllConserve;
    hide Sum;
    hide Accounted;
    RowsSum(c, header, objects, nodes, rest);
    ChildrenConserve(c, order, nodes);
    AllConserveConcat(header, objects);
    AllConserveConcat(header + objects, nodes);
    AllConserveConcat(header + objects + nodes, rest);
    ConservesIff(node);
  }

  lemma ConservesIff(n: Node)
    ensures Conserves(n) <==> (n.kind in GROUPS ==> n.bytes == Sum(n.children)) && AllConserve(n.children)
  {
  }

  method SumRows(nodes: seq<Node>) returns (total: nat)
    ensures total == Sum(nodes)
  {
    total := 0;
    for i := 0 to |nodes|
      invariant total == Sum(nodes[..i])
    {
      assert nodes[..i + 1][..i] == nodes[..i];
      total := total + nodes[i].bytes;
    }
    assert nodes[..|nodes|] == nodes;
  }

  method HeaderRow(c: Container) returns (rows: seq<Node>)
    ensures Sum(rows) == c.header && AllConserve(rows)
    ensures rows == if c.header > 0 then [Node("Header", c.header, "chunk_header", None, [])] else []
  {
    rows := [];
    if c.header != 0 {
      rows := [Node("Header", c.header, "chunk_header", None, [])];
      SumOne(rows[0]);
    }
  }

  /** Bytes of the rows that group nothing. */
  function Leaves(n: Node): nat
    decreases n
  {
    if n.kind in GROUPS then LeavesOf(n.children) else n.bytes
  }

  function LeavesOf(nodes: seq<Node>): nat
    decreases nodes
  {
    if nodes == [] then 0 else Leaves(nodes[0]) + LeavesOf(nodes[1..])
  }

  /** Where every row conserves, no byte is counted twice and none is missing. */
  lemma {:induction false} LeavesAll(n: Node)
    requires Conserves(n)
    ensures Leaves(n) == n.bytes
    decreases n
  {
    if n.kind in GROUPS {
      LeavesOfAll(n.children);
    }
  }

  lemma {:induction false} LeavesOfAll(nodes: seq<Node>)
    requires forall n | n in nodes :: Conserves(n)
    ensures LeavesOf(nodes) == Sum(nodes)
    decreases nodes
  {
    hide Conserves;
    if nodes != [] {
      LeavesAll(nodes[0]);
      LeavesOfAll(nodes[1..]);
      assert nodes == [nodes[0]] + nodes[1..];
      SumConcat([nodes[0]], nodes[1..]);
      SumOne(nodes[0]);
    }
  }

  /** The bytes of some well-formed chunk tree. */
  ghost predicate IsPrinted(data: Bytes) {
    exists c :: WellFormed(c) && Print(c) == data
  }

  lemma PrintedReport(data: Bytes, labels: Labels)
    requires IsPrinted(data)
    ensures var r := Walk(data, 0, |data|).record;
      && r.Some?
      && var total := Accumulated(Empty("iTunesDB"), labels, r.value);
      && Fits(total) && total.bytes == |data|
  {
    hide WellFormed;
    hide Walk;
    hide Nested;
    hide Fits;
    hide Accumulated;
    hide Accounted;
    hide Print;
    hide RecordOf;
    hide Chunk.HeaderLength;
    var c: Chunk :| WellFormed(c) && Print(c) == data;
    WalkRoundTrip(c);
    PrintedNested(c, 0);
    RecordTotal(c, 0);
    EmptyFits("iTunesDB");
    AccumulatedFits(Empty("iTunesDB"), labels, RecordOf(c, 0));
  }

  lemma TooShort(data: Bytes)
    requires |data| < MIN_HEADER
    ensures Walk(data, 0, |data|).record == None
  {
  }

  /** `_build_classic_root`: on the bytes of a well-formed tree every row of the report has as many
      bytes as the rows under it, and the rows at the bottom account for every byte once. */
  method BuildClassicRoot(data: Bytes, labels: Labels) returns (root: Node)
    ensures root.bytes == |data| || (Walk(data, 0, |data|).record.Some? && root.bytes == Walk(data, 0, |data|).record.value.total)
    ensures Walk(data, 0, |data|).record.Some? ==>
              var total := Accumulated(Empty("iTunesDB"), labels, Walk(data, 0, |data|).record.value);
              IsRow(total, "classic_database", root) && (Conserves(root) <==> Fits(total))
    ensures Walk(data, 0, |data|).record.None? ==> root == Node("iTunesDB", |data|, "error", None, [])
    ensures IsPrinted(data) ==> root.bytes == |data| && Conserves(root) && Leaves(root) == |data|
  {
    hide Conserves;
    hide IsRow;
    hide Fits;
    hide Walk;
    hide Leaves;
    hide IsPrinted;
    if IsPrinted(data) {
      PrintedReport(data, labels);
    }
    if |data| < MIN_HEADER {
      TooShort(data);
      return Node("iTunesDB", |data|, "error", None, []);
    }
    var record, next := WalkChunk(data, 0, |data|);
    if record.None? {
      return Node("iTunesDB", |data|, "error", None, []);
    }
    var total := AccumulateContainer(Empty("iTunesDB"), labels, record.value);
    AccumulatedBytes(Empty("iTunesDB").(bytes := record.value.total, header := record.value.header, count := 1), labels, record.value.children);
    root := ContainerNode(total, "classic_database");
    if IsPrinted(data) {
      LeavesAll(root);
    }
  }
}
