/** The values GVQL compares and reads. */
module GvqlValues {
  import opened EncodedGraph

  /** `JsReference` and `JsSummary` are objects made afresh on every read, so they are equal to nothing. */
  datatype JsValue =
    | JsUndefined
    | JsNull
    | JsBoolean(flag: bool)
    | JsString(text: string)
    | JsNumber(number: real)
    | JsSpecial(special: SpecialNumber)
    | JsBigInt(integer: int)
    | JsReference(id: ObjectId)
    | JsArray(items: seq<JsValue>)
    | JsSummary(id: ObjectId)

  predicate IsNullish(v: JsValue) {
    v.JsUndefined? || v.JsNull?
  }

  predicate IsObject(v: JsValue) {
    v.JsReference? || v.JsArray? || v.JsSummary?
  }

  /** `0` and `-0` are one value to every comparison. */
  function Normal(v: JsValue): JsValue {
    if v == JsSpecial(NegativeZero) then JsNumber(0.0) else v
  }

  /** `===` on values at least one of which was read afresh. */
  predicate StrictEquals(a: JsValue, b: JsValue) {
    Normal(a) == Normal(b) && !IsObject(a) && a != JsSpecial(NotANumber)
  }

  /** The comparison of `Array.prototype.includes`: as `===`, but `NaN` equals itself. */
  predicate SameValueZero(a: JsValue, b: JsValue) {
    Normal(a) == Normal(b) && !IsObject(a)
  }

  function EncodedToJs(e: EncodedValue): JsValue {
    match e
    case Null => JsNull
    case Undefined => JsUndefined
    case Boolean(b) => JsBoolean(b)
    case Text(t) => JsString(t)
    case Number(r) => JsNumber(r)
    case Special(s) => JsSpecial(s)
    case BigInt(i) => JsBigInt(i)
    case Opaque(_, payload) => JsString(payload)
    case Ref(id) => JsReference(id)
  }

  /** What `SET`, `CREATE` and `MERGE` may store: primitives only; `None` is the error for anything else. */
  function JsToEncoded(v: JsValue): (e: Option<EncodedValue>)
    ensures e.Some? ==> !e.value.Ref?
  {
    match v
    case JsUndefined => Some(Undefined)
    case JsNull => Some(Null)
    case JsBoolean(b) => Some(Boolean(b))
    case JsString(t) => Some(Text(t))
    case JsNumber(r) => Some(Number(r))
    case JsSpecial(s) => Some(Special(s))
    case JsBigInt(i) => Some(BigInt(i))
    case _ => None
  }

  function Digit(n: nat): char
    requires n < 10
  {
    "0123456789"[n]
  }

  /** `String(n)`. */
  function Decimal(n: nat): string {
    if n < 10 then [Digit(n)] else Decimal(n / 10) + [Digit(n % 10)]
  }

  /** What the two path patterns of the source recognise in a path text. */
  datatype PathShape = Name | Item(index: nat) | EntryKey(index: nat) | EntryValue(index: nat)

  /** A property path: its text, and the position it denotes on nodes that are not objects. */
  datatype Path = Path(text: string, shape: PathShape)

  function FindProperty(props: seq<Property>, name: string): Option<EncodedValue> {
    if props == [] then None
    else if props[0].name == name then Some(props[0].value)
    else FindProperty(props[1..], name)
  }

  /** `getNodePath` with a path present. */
  function GetNodePath(node: EncodedNode, path: Path): Option<EncodedValue> {
    match node
    case ObjectNode(_, props) => FindProperty(props, path.text)
    case ArrayNode(items) => if path.shape.Item? && path.shape.index < |items| then Some(items[path.shape.index])
                else None
    case SetNode(items) => if path.shape.Item? && path.shape.index < |items| then Some(items[path.shape.index])
                else None
    case MapNode(entries) =>
      (match path.shape
       case EntryKey(i) => if i < |entries| then Some(entries[i].key) else None
       case EntryValue(i) => if i < |entries| then Some(entries[i].value) else None
       case _ => None)
    case LazyNode(_) => None
  }

  function PathToJs(e: Option<EncodedValue>): JsValue {
    if e.Some? then EncodedToJs(e.value) else JsUndefined
  }

  function TypeOf(node: EncodedNode): Option<string> {
    if node.ObjectNode? then node.typeName else None
  }

  function KindOf(node: EncodedNode): string {
    match node
    case ArrayNode(_) => "array"
    case SetNode(_) => "set"
    case MapNode(_) => "map"
    case ObjectNode(_, _) => "object"
    case LazyNode(_) => "lazy"
  }

  lemma {:induction false} FoundProperty(props: seq<Property>, name: string)
    ensures FindProperty(props, name).Some? <==> exists i :: 0 <= i < |props| && props[i].name == name
    ensures FindProperty(props, name).Some? ==>
              exists i :: 0 <= i < |props| && props[i] == Property(name, FindProperty(props, name).value)
    decreases |props|
  {
    if props != [] {
      FoundProperty(props[1..], name);
      if props[0].name == name {
        assert props[0] == Property(name, FindProperty(props, name).value);
      } else if FindProperty(props, name).Some? {
        var i :| 0 <= i < |props| - 1 && props[1..][i] == Property(name, FindProperty(props, name).value);
        assert props[i + 1] == Property(name, FindProperty(props, name).value);
      } else {
        forall i | 0 <= i < |props| ensures props[i].name != name {
          assert i > 0 ==> props[i] == props[1..][i - 1];
        }
      }
    }
  }
}
