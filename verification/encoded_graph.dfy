/** The encoded object graph. */
module EncodedGraph {
  // The encoded object graph every other module shares: values, nodes, envelopes and their references.


  datatype Option<+T> = None | Some(value: T)

  /** An object id. The registry mints them as decimal numerals, so a number stands for its numeral. */
  type ObjectId = nat

  datatype SpecialNumber = NotANumber | PositiveInfinity | NegativeInfinity | NegativeZero

  /** `Opaque` covers the payload-only encodings: dates, buffers, regular expressions, URLs, symbols, errors. */
  datatype EncodedValue =
    | Null
    | Undefined
    | Boolean(flag: bool)
    | Text(text: string)
    | Number(number: real)
    | Special(special: SpecialNumber)
    | BigInt(integer: int)
    | Opaque(kind: string, payload: string)
    | Ref(id: ObjectId)

  datatype Entry = Entry(key: EncodedValue, value: EncodedValue)

  datatype Property = Property(name: string, value: EncodedValue)

  datatype EncodedNode =
    | ArrayNode(items: seq<EncodedValue>)
    | SetNode(items: seq<EncodedValue>)
    | MapNode(entries: seq<Entry>)
    | ObjectNode(typeName: Option<string>, props: seq<Property>)
    | LazyNode(key: string)

  datatype Envelope = Envelope(root: EncodedValue, nodes: map<ObjectId, EncodedNode>)

  function EntrySlots(entries: seq<Entry>): seq<EncodedValue> {
    if entries == [] then [] else [entries[0].key, entries[0].value] + EntrySlots(entries[1..])
  }

  function PropertySlots(props: seq<Property>): seq<EncodedValue> {
    if props == [] then [] else [props[0].value] + PropertySlots(props[1..])
  }

  /** Every value position of a node, in the order the source visits them. */
  function Slots(node: EncodedNode): seq<EncodedValue> {
    match node
    case ArrayNode(items) => items
    case SetNode(items) => items
    case MapNode(entries) => EntrySlots(entries)
    case ObjectNode(_, props) => PropertySlots(props)
    case LazyNode(_) => []
  }

  ghost predicate RefersTo(node: EncodedNode, id: ObjectId) {
    Ref(id) in Slots(node)
  }

  /** Every reference of the graph, and its root, lands on a node of the graph. */
  ghost predicate ClosedNodes(nodes: map<ObjectId, EncodedNode>) {
    forall from, to | from in nodes && RefersTo(nodes[from], to) :: to in nodes
  }

  ghost predicate Closed(e: Envelope) {
    && ClosedNodes(e.nodes)
    && (e.root.Ref? ==> e.root.id in e.nodes)
  }

  lemma EntrySlotsMember(entries: seq<Entry>, v: EncodedValue)
    ensures v in EntrySlots(entries) <==> exists i ::
              0 <= i < |entries| && (entries[i].key == v || entries[i].value == v)
  {
    if entries != [] {
      EntrySlotsMember(entries[1..], v);
      if i :| 0 <= i < |entries| && (entries[i].key == v || entries[i].value == v) {
        assert i == 0 || entries[i] == entries[1..][i - 1];
      }
    }
  }

  lemma PropertySlotsMember(props: seq<Property>, v: EncodedValue)
    ensures v in PropertySlots(props) <==> exists i :: 0 <= i < |props| && props[i].value == v
  {
    if props != [] {
      PropertySlotsMember(props[1..], v);
      if i :| 0 <= i < |props| && props[i].value == v {
        assert i == 0 || props[i] == props[1..][i - 1];
      }
    }
  }
}
