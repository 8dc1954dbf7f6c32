/** Live objects, and what encoding and decoding make of one once its targets have names. */
module LiveGraph {
  import opened EncodedGraph

  /** The identity of a live object. */
  type Address = nat

  datatype Scalar =
    | JsNull
    | JsUndefined
    | JsBoolean(flag: bool)
    | JsString(text: string)
    | JsNumber(finite: real)
    | JsSpecial(special: SpecialNumber)
    | JsBigInt(integer: int)
    | JsOpaque(kind: string, payload: string)

  datatype Value = Primitive(scalar: Scalar) | Pointer(address: Address)

  datatype Pair = Pair(key: Value, value: Value)

  datatype Field = Field(name: string, value: Value)

  /** `ctor` is the class of an object, `None` for a plain one. */
  datatype LiveObject =
    | LiveArray(items: seq<Value>)
    | LiveSet(items: seq<Value>)
    | LiveMap(entries: seq<Pair>)
    | LiveRecord(ctor: Option<string>, fields: seq<Field>)
    | LiveLazy(key: string)

  type Heap = map<Address, LiveObject>

  function EncodeScalar(s: Scalar): (e: EncodedValue)
    ensures !e.Ref?
  {
    match s
    case JsNull => Null
    case JsUndefined => Undefined
    case JsBoolean(b) => Boolean(b)
    case JsString(t) => Text(t)
    case JsNumber(r) => Number(r)
    case JsSpecial(n) => Special(n)
    case JsBigInt(i) => BigInt(i)
    case JsOpaque(k, p) => Opaque(k, p)
  }

  function DecodeScalar(e: EncodedValue): Scalar
    requires !e.Ref?
  {
    match e
    case Null => JsNull
    case Undefined => JsUndefined
    case Boolean(b) => JsBoolean(b)
    case Text(t) => JsString(t)
    case Number(r) => JsNumber(r)
    case Special(n) => JsSpecial(n)
    case BigInt(i) => JsBigInt(i)
    case Opaque(k, p) => JsOpaque(k, p)
  }

  function PairSlots(entries: seq<Pair>): seq<Value> {
    if entries == [] then [] else [entries[0].key, entries[0].value] + PairSlots(entries[1..])
  }

  function FieldSlots(fields: seq<Field>): seq<Value> {
    if fields == [] then [] else [fields[0].value] + FieldSlots(fields[1..])
  }

  /** The values of an object in the order the serializer visits them. */
  function LiveSlots(o: LiveObject): seq<Value> {
    match o
    case LiveArray(items) => items
    case LiveSet(items) => items
    case LiveMap(entries) => PairSlots(entries)
    case LiveRecord(_, fields) => FieldSlots(fields)
    case LiveLazy(_) => []
  }

  ghost predicate PointsTo(o: LiveObject, a: Address) {
    Pointer(a) in LiveSlots(o)
  }

  /** `r` holds live objects only and everything they point to. */
  ghost predicate ClosedHeap(heap: Heap, r: set<Address>) {
    && r <= heap.Keys
    && forall a, b | a in r && PointsTo(heap[a], b) :: b in r
  }

  type Names = map<Address, ObjectId>

  type Places = map<ObjectId, Address>

  function EncodeValue(v: Value, names: Names): EncodedValue {
    match v
    case Primitive(s) => EncodeScalar(s)
    case Pointer(a) => if a in names then Ref(names[a]) else Null
  }

  function DecodeValue(e: EncodedValue, places: Places): Value {
    if e.Ref? then (if e.id in places then Pointer(places[e.id]) else Primitive(JsNull))
    else Primitive(DecodeScalar(e))
  }

  function EncodeValues(vs: seq<Value>, names: Names): seq<EncodedValue> {
    seq(|vs|, i requires 0 <= i < |vs| => EncodeValue(vs[i], names))
  }

  function DecodeValues(es: seq<EncodedValue>, places: Places): seq<Value> {
    seq(|es|, i requires 0 <= i < |es| => DecodeValue(es[i], places))
  }

  function PairUp(es: seq<EncodedValue>): seq<Entry> {
    if |es| < 2 then [] else [Entry(es[0], es[1])] + PairUp(es[2..])
  }

  function LabelAll(fields: seq<Field>, es: seq<EncodedValue>): seq<Property> {
    if fields == [] || es == [] then [] else [Property(fields[0].name, es[0])] + LabelAll(fields[1..], es[1..])
  }

  /** The encoded node of an object whose slots encode to `es`. An unregistered class is stored as a plain object. */
  function Assemble(o: LiveObject, es: seq<EncodedValue>, types: set<string>): EncodedNode {
    match o
    case LiveArray(_) => ArrayNode(es)
    case LiveSet(_) => SetNode(es)
    case LiveMap(_) => MapNode(PairUp(es))
    case LiveRecord(ctor, fields) =>
      ObjectNode(if ctor.Some? && ctor.value in types then ctor else None, LabelAll(fields, es))
    case LiveLazy(key) => LazyNode(key)
  }

  function EncodeObject(o: LiveObject, names: Names, types: set<string>): EncodedNode {
    Assemble(o, EncodeValues(LiveSlots(o), names), types)
  }

  /** `Map.prototype.set`: replace the entry of an equal key, else append. */
  function MapSet(entries: seq<Pair>, k: Value, v: Value): seq<Pair> {
    if entries == [] then [Pair(k, v)]
    else if entries[0].key == k then [Pair(k, v)] + entries[1..]
    else [entries[0]] + MapSet(entries[1..], k, v)
  }

  /** `Set.prototype.add`. */
  function SetAdd(items: seq<Value>, v: Value): seq<Value> {
    if v in items then items else items + [v]
  }

  /** Property assignment: replace the field of that name, else append. */
  function AssignField(fields: seq<Field>, name: string, v: Value): seq<Field> {
    if fields == [] then [Field(name, v)]
    else if fields[0].name == name then [Field(name, v)] + fields[1..]
    else [fields[0]] + AssignField(fields[1..], name, v)
  }

  function FillMap(entries: seq<Pair>, vs: seq<Value>): seq<Pair>
    decreases |vs|
  {
    if |vs| < 2 then entries else FillMap(MapSet(entries, vs[0], vs[1]), vs[2..])
  }

  function FillSet(items: seq<Value>, vs: seq<Value>): seq<Value>
    decreases |vs|
  {
    if vs == [] then items else FillSet(SetAdd(items, vs[0]), vs[1..])
  }

  function FillFields(fields: seq<Field>, props: seq<Property>, vs: seq<Value>): seq<Field>
    decreases |vs|
  {
    if props == [] || vs == [] then fields
    else FillFields(AssignField(fields, props[0].name, vs[0]), props[1..], vs[1..])
  }

  /** The empty live object a node starts out as. */
  function Shell(node: EncodedNode): LiveObject {
    match node
    case ArrayNode(_) => LiveArray([])
    case SetNode(_) => LiveSet([])
    case MapNode(_) => LiveMap([])
    case ObjectNode(typeName, _) => LiveRecord(typeName, [])
    case LazyNode(key) => LiveLazy(key)
  }

  /** The shell of a node filled with the decoded values of its slots. */
  function Fill(node: EncodedNode, vs: seq<Value>): LiveObject {
    match node
    case ArrayNode(_) => LiveArray(vs)
    case SetNode(_) => LiveSet(FillSet([], vs))
    case MapNode(_) => LiveMap(FillMap([], vs))
    case ObjectNode(typeName, props) => LiveRecord(typeName, FillFields([], props, vs))
    case LazyNode(key) => LiveLazy(key)
  }

  function DecodeNode(node: EncodedNode, places: Places): LiveObject {
    Fill(node, DecodeValues(Slots(node), places))
  }

  predicate KnownType(node: EncodedNode, types: set<string>) {
    node.ObjectNode? && node.typeName.Some? ==> node.typeName.value in types
  }

  ghost predicate Extends<K, V>(a: map<K, V>, b: map<K, V>) {
    forall k | k in a :: k in b && b[k] == a[k]
  }

  ghost predicate Injective<K, V>(m: map<K, V>) {
    forall x, y | x in m && y in m && m[x] == m[y] :: x == y
  }

  /** Naming more objects does not change how one whose neighbours are named already is encoded. */
  lemma EncodeFrame(vs: seq<Value>, names: Names, names': Names)
    requires Extends(names, names') && forall a | Pointer(a) in vs :: a in names
    ensures EncodeValues(vs, names') == EncodeValues(vs, names)
  {
    forall i | 0 <= i < |vs| ensures EncodeValue(vs[i], names') == EncodeValue(vs[i], names) {
      assert vs[i] in vs;
    }
  }

  lemma DecodeFrame(es: seq<EncodedValue>, places: Places, places': Places)
    requires Extends(places, places') && forall id | Ref(id) in es :: id in places
    ensures DecodeValues(es, places') == DecodeValues(es, places)
  {
    forall i | 0 <= i < |es| ensures DecodeValue(es[i], places') == DecodeValue(es[i], places) {
      assert es[i] in es;
    }
  }
}
