/** `parse_chunk` and the `mh*` parsers: the recursive reader that the display uses. */
module LenientParser {
  import opened Outcomes
  import opened Bytes
  import opened ArtworkDbFormat
  import Utf16
  import Text

  /** `read_mhni_fields`, as far as the image needs them. */
  datatype NameFields = NameFields(formatId: nat, offset: nat, size: nat, vpad: int, hpad: int, height: nat, width: nat)

  /** What one chunk parses to; the chunks whose parser is not written give Empty. */
  datatype Node =
    | File(datasets: seq<Node>)
    | Dataset(kind: nat, child: Node)
    | ImageList(images: seq<Node>)
    | Image(imgId: nat, songId: nat, srcImgSize: nat, containers: seq<Node>)
    | StringObject(kind: nat, text: string)
    | ContainerObject(kind: nat, child: Node)
    | OtherObject(kind: nat)
    | ImageName(fields: NameFields, names: seq<Node>)
    | Empty

  /** The result of a parser, with `nextOffset` unless it gives an empty dict. */
  datatype Parsed = Parsed(node: Node, next: Option<nat>)

  const STRING_TYPES: set<nat> := {1, 3}
  const CONTAINER_TYPES: set<nat> := {2, 5, 6}

  /** Tags whose parser gives an empty dict: mhla, mhba, mhia, mhlf, mhif, mhaf. */
  const EMPTY_TAGS: set<Bytes> := {MHLA, [0x6D, 0x68, 0x62, 0x61], [0x6D, 0x68, 0x69, 0x61], MHLF, MHIF, [0x6D, 0x68, 0x61, 0x66]}

  predicate IsObject(n: Node) {
    n.StringObject? || n.ContainerObject? || n.OtherObject?
  }

  /** `decode_mhod_string_body(...) or ""`; None when it reads past the data. */
  function StringAt(utf8: Bytes -> string, data: Bytes, body: nat, end: nat): Option<string> {
    if body + 12 > end then Some("")
    else if body + 5 > |data| then None
    else
      var start := Min(body + 12, |data|);
      var stop := Min(Min(end, body + 12 + ReadU32(data, body)), |data|);
      var raw := if start <= stop then data[start..stop] else [];
      Some(Text.RStripNul(if data[body + 4] == UTF16_ENCODING then Utf16.DecodeReplace(raw) else utf8(raw)))
  }

  function FieldsAt(data: Bytes, offset: nat): NameFields
    requires offset + 44 <= |data|
  {
    NameFields(ReadU32(data, offset + 16), ReadU32(data, offset + 20), ReadU32(data, offset + 24),
               ReadI16(data, offset + 28), ReadI16(data, offset + 30), ReadU16(data, offset + 32), ReadU16(data, offset + 34))
  }

  /** `parse_chunk`; None when it raises. `depth` is how many more nested calls the interpreter
      allows. */
  function ParseChunk(utf8: Bytes -> string, data: Bytes, offset: nat, depth: nat): Option<Parsed>
    decreases depth, 0, 0
  {
    if depth == 0 || offset + 12 > |data| then None
    else
      var tag, header, length := data[offset..offset + 4], ReadU32(data, offset + 4), ReadU32(data, offset + 8);
      if tag == MHFD then
        if offset + 68 > |data| then None
        else
          var row :- ParseRow(utf8, data, offset + header, ReadU32(data, offset + 20), depth - 1);
          if forall n | n in row.nodes :: n.Dataset? && n.kind in {1, 2, 3} then Some(Parsed(File(row.nodes), Some(row.end))) else None
      else if tag == MHSD then
        if offset + 14 > |data| then None
        else
          var child :- ParseChunk(utf8, data, offset + header, depth - 1);
          Some(Parsed(Dataset(ReadU16(data, offset + 12), child.node), Some(offset + length)))
      else if tag == MHLI then
        var row :- ParseRow(utf8, data, offset + header, length, depth - 1);
        Some(Parsed(ImageList(row.nodes), Some(row.end)))
      else if tag == MHII then
        if offset + 52 > |data| then None
        else
          var row :- ParseRow(utf8, data, offset + header, ReadU32(data, offset + 12), depth - 1);
          if forall n | n in row.nodes :: IsObject(n) then
            Some(Parsed(Image(ReadU32(data, offset + 16), ReadU64(data, offset + 20), ReadU32(data, offset + 48), Containers(row.nodes)),
                        Some(offset + length)))
          else None
      else if tag == MHNI then
        if offset + 44 > |data| then None
        else
          var row :- ParseRow(utf8, data, offset + header, ReadU32(data, offset + 12), depth - 1);
          if forall n | n in row.nodes :: IsObject(n) then
            Some(Parsed(ImageName(FieldsAt(data, offset), row.nodes), Some(offset + length)))
          else None
      else if tag == MHOD then ParseObject(utf8, data, offset, header, length, depth - 1)
      else if tag in EMPTY_TAGS then Some(Parsed(Empty, None))
      else None
  }

  /** `parse_mhod` */
  function ParseObject(utf8: Bytes -> string, data: Bytes, offset: nat, header: nat, length: nat, depth: nat): Option<Parsed>
    decreases depth, 1, 0
  {
    if offset + 14 > |data| then None
    else
      var kind := ReadU16(data, offset + 12);
      if kind in STRING_TYPES then
        var text :- StringAt(utf8, data, offset + header, offset + length);
        Some(Parsed(StringObject(kind, text), Some(offset + length)))
      else if kind in CONTAINER_TYPES then
        var child :- ParseChunk(utf8, data, offset + header, depth);
        Some(Parsed(ContainerObject(kind, child.node), Some(offset + length)))
      else Some(Parsed(OtherObject(kind), Some(offset + length)))
  }

  /** Chunks that follow one another, and where they end. */
  datatype Row = Row(nodes: seq<Node>, end: nat)

  /** The child loops: `count` chunks, each where the one before says. */
  function ParseRow(utf8: Bytes -> string, data: Bytes, offset: nat, count: nat, depth: nat): Option<Row>
    decreases depth, 1, count
  {
    if count == 0 then Some(Row([], offset))
    else
      var first :- ParseChunk(utf8, data, offset, depth);
      var next :- first.next;
      var rest :- ParseRow(utf8, data, next, count - 1, depth);
      Some(Row([first.node] + rest.nodes, rest.end))
  }

  /** `_image_containers` */
  function Containers(objects: seq<Node>): seq<Node> {
    if objects == [] then []
    else (if objects[0].ContainerObject? then [objects[0]] else []) + Containers(objects[1..])
  }

  /** The child loop of the file, list, image and name parsers. */
  method ParseChildren(utf8: Bytes -> string, data: Bytes, start: nat, count: nat, depth: nat) returns (r: Option<Row>)
    ensures r == ParseRow(utf8, data, start, count, depth)
    decreases depth, 1
  {
    var nodes: seq<Node> := [];
    var nextOffset := start;
    ghost var all := ParseRow(utf8, data, start, count, depth);
    RowJoinNothing(all);
    for i := 0 to count
      invariant all == Joined(nodes, ParseRow(utf8, data, nextOffset, count - i, depth))
    {
      var response := Parse(utf8, data, nextOffset, depth);
      if response.None? || response.value.next.None? {
        return None;
      }
      RowJoin(nodes, response.value.node, ParseRow(utf8, data, response.value.next.value, count - i - 1, depth));
      nodes := nodes + [response.value.node];
      nextOffset := response.value.next.value;
    }
    assert nodes + [] == nodes;
    return Some(Row(nodes, nextOffset));
  }

  function Joined(front: seq<Node>, r: Option<Row>): Option<Row> {
    if r.None? then None else Some(Row(front + r.value.nodes, r.value.end))
  }

  lemma RowJoinNothing(r: Option<Row>)
    ensures Joined([], r) == r
  {
    if r.Some? { assert [] + r.value.nodes == r.value.nodes; }
  }

  lemma RowJoin(front: seq<Node>, node: Node, r: Option<Row>)
    ensures Joined(front, Joined([node], r)) == Joined(front + [node], r)
  {
    if r.Some? { assert front + ([node] + r.value.nodes) == front + [node] + r.value.nodes; }
  }

  method Parse(utf8: Bytes -> string, data: Bytes, offset: nat, depth: nat) returns (r: Option<Parsed>)
    ensures r == ParseChunk(utf8, data, offset, depth)
    decreases depth, 0
  {
    hide Containers;
    hide StringAt;
    hide ParseRow;
    hide ParseObject;
    hide FieldsAt;
    hide ReadU32;
    hide ReadU16;
    hide ReadU64;
    if depth == 0 || offset + 12 > |data| {
      return None;
    }
    var tag, header, length := data[offset..offset + 4], ReadU32(data, offset + 4), ReadU32(data, offset + 8);
    if tag == MHFD {
      if offset + 68 > |data| {
        return None;
      }
      var row :- ParseChildren(utf8, data, offset + header, ReadU32(data, offset + 20), depth - 1);
      if !forall n | n in row.nodes :: n.Dataset? && n.kind in {1, 2, 3} {
        return None;
      }
      return Some(Parsed(File(row.nodes), Some(row.end)));
    } else if tag == MHSD {
      if offset + 14 > |data| {
        return None;
      }
      var child :- Parse(utf8, data, offset + header, depth - 1);
      return Some(Parsed(Dataset(ReadU16(data, offset + 12), child.node), Some(offset + length)));
    } else if tag == MHLI {
      var row :- ParseChildren(utf8, data, offset + header, length, depth - 1);
      return Some(Parsed(ImageList(row.nodes), Some(row.end)));
    } else if tag == MHII {
      if offset + 52 > |data| {
        return None;
      }
      var row :- ParseChildren(utf8, data, offset + header, ReadU32(data, offset + 12), depth - 1);
      if !forall n | n in row.nodes :: IsObject(n) {
        return None;
      }
      return Some(Parsed(Image(ReadU32(data, offset + 16), ReadU64(data, offset + 20), ReadU32(data, offset + 48), Containers(row.nodes)),
                         Some(offset + length)));
    } else if tag == MHNI {
      if offset + 44 > |data| {
        return None;
      }
      var row :- ParseChildren(utf8, data, offset + header, ReadU32(data, offset + 12), depth - 1);
      if !forall n | n in row.nodes :: IsObject(n) {
        return None;
      }
      return Some(Parsed(ImageName(FieldsAt(data, offset), row.nodes), Some(offset + length)));
    } else if tag == MHOD {
      r := ParseMhod(utf8, data, offset, header, length, depth - 1);
      return;
    } else if tag in EMPTY_TAGS {
      return Some(Parsed(Empty, None));
    }
    return None;
  }

  method ParseMhod(utf8: Bytes -> string, data: Bytes, offset: nat, header: nat, length: nat, depth: nat) returns (r: Option<Parsed>)
    ensures r == ParseObject(utf8, data, offset, header, length, depth)
    decreases depth, 2
  {
    hide StringAt;
    hide ParseChunk;
    if offset + 14 > |data| {
      return None;
    }
    var kind := ReadU16(data, offset + 12);
    if kind in STRING_TYPES {
      var text :- StringAt(utf8, data, offset + header, offset + length);
      return Some(Parsed(StringObject(kind, text), Some(offset + length)));
    } else if kind in CONTAINER_TYPES {
      var child :- Parse(utf8, data, offset + header, depth);
      return Some(Parsed(ContainerObject(kind, child.node), Some(offset + length)));
    }
    return Some(Parsed(OtherObject(kind), Some(offset + length)));
  }

  lemma {:induction false} ContainersConcat(a: seq<Node>, b: seq<Node>)
    ensures Containers(a + b) == Containers(a) + Containers(b)
  {
    if a == [] {
      assert a + b == b;
    } else {
      assert (a + b)[0] == a[0] && (a + b)[1..] == a[1..] + b;
      ContainersConcat(a[1..], b);
    }
  }

  /** What is kept of the objects of an image: the containers among them, and nothing else. */
  lemma {:induction false} OnlyContainers(objects: seq<Node>, x: Node)
    ensures multiset(Containers(objects))[x] == if x.ContainerObject? then multiset(objects)[x] else 0
  {
    if objects != [] {
      OnlyContainers(objects[1..], x);
      assert objects == [objects[0]] + objects[1..];
    }
  }

  /** What a parsed chunk can have inside it, whatever the bytes are: a file has datasets of the three
      kinds, an image has containers, and an image name has objects. */
  lemma ParsedKinds(utf8: Bytes -> string, data: Bytes, offset: nat, depth: nat)
    requires ParseChunk(utf8, data, offset, depth).Some?
    ensures var node := ParseChunk(utf8, data, offset, depth).value.node;
      && (node.File? ==> forall d | d in node.datasets :: d.Dataset? && 1 <= d.kind <= 3)
      && (node.Image? ==> forall c | c in node.containers :: c.ContainerObject?)
      && (node.ImageName? ==> forall n | n in node.names :: n.StringObject? || n.ContainerObject? || n.OtherObject?)
  {
    hide ParseRow;
    hide Containers;
    hide StringAt;
    hide FieldsAt;
    var node := ParseChunk(utf8, data, offset, depth).value.node;
    if node.Image? {
      var row := ParseRow(utf8, data, offset + ReadU32(data, offset + 4), ReadU32(data, offset + 12), depth - 1).value;
      forall c | c in node.containers ensures c.ContainerObject? { OnlyContainers(row.nodes, c); }
    }
  }
}
