/** Queries read what the live objects hold. */
module GvqlLiveReads {
  // From live object to query: what a path read of a serialized object gives, in terms of the object itself.

  import opened EncodedGraph
  import opened GvqlValues
  import opened LiveGraph
  import opened SerializerRoundTrip

  /** How a live value looks to a query: itself, a reference by the id of its object, or the text of an opaque value. */
  function SeenAs(v: Value, names: Names): JsValue
    requires v.Pointer? ==> v.address in names
  {
    match v
    case Pointer(a) => JsReference(names[a])
    case Primitive(JsNull) => JsValue.JsNull
    case Primitive(JsUndefined) => JsValue.JsUndefined
    case Primitive(JsBoolean(b)) => JsValue.JsBoolean(b)
    case Primitive(JsString(t)) => JsValue.JsString(t)
    case Primitive(JsNumber(r)) => JsValue.JsNumber(r)
    case Primitive(JsSpecial(n)) => JsValue.JsSpecial(n)
    case Primitive(JsBigInt(i)) => JsValue.JsBigInt(i)
    case Primitive(JsOpaque(_, payload)) => JsValue.JsString(payload)
  }

  lemma ValueSeen(v: Value, names: Names)
    requires v.Pointer? ==> v.address in names
    ensures EncodedToJs(EncodeValue(v, names)) == SeenAs(v, names)
  {
  }

  ghost predicate NeighboursNamed(o: LiveObject, names: Names) {
    forall a | PointsTo(o, a) :: a in names
  }

  /** What a query reads at the path of the object's node. */
  function ReadAt(o: LiveObject, names: Names, types: set<string>, path: Path): JsValue {
    PathToJs(GetNodePath(EncodeObject(o, names, types), path))
  }

  lemma SlotNamed(o: LiveObject, names: Names, v: Value)
    requires NeighboursNamed(o, names) && v in LiveSlots(o)
    ensures v.Pointer? ==> v.address in names
  {
    if v.Pointer? {
      assert PointsTo(o, v.address);
    }
  }

  lemma {:induction false} LabelledAt(fields: seq<Field>, es: seq<EncodedValue>, i: nat)
    requires |es| == |fields| && i < |fields|
    requires forall j, k | 0 <= j < k < |fields| :: fields[j].name != fields[k].name
    ensures FindProperty(LabelAll(fields, es), fields[i].name) == Some(es[i])
    decreases i
  {
    if i > 0 {
      assert fields[0].name != fields[i].name;
      LabelledAt(fields[1..], es[1..], i - 1);
      assert LabelAll(fields, es)[1..] == LabelAll(fields[1..], es[1..]);
    }
  }

  lemma {:induction false} NotLabelled(fields: seq<Field>, es: seq<EncodedValue>, name: string)
    requires forall i | 0 <= i < |fields| :: fields[i].name != name
    ensures FindProperty(LabelAll(fields, es), name) == None
    decreases |fields|
  {
    if fields != [] && es != [] {
      NotLabelled(fields[1..], es[1..], name);
      assert LabelAll(fields, es)[1..] == LabelAll(fields[1..], es[1..]);
    }
  }

  lemma {:induction false} FieldSlotAt(fields: seq<Field>, i: nat)
    requires i < |fields|
    ensures |FieldSlots(fields)| == |fields| && FieldSlots(fields)[i] == fields[i].value
    decreases i
  {
    SlotLengths([], fields);
    if i > 0 {
      FieldSlotAt(fields[1..], i - 1);
    }
  }

  /** A property of an object reads as the field of that name, and as undefined when there is none. */
  lemma FieldReads(ctor: Option<string>, fields: seq<Field>, names: Names, types: set<string>, path: Path, i: nat)
    requires var o := LiveRecord(ctor, fields); NeighboursNamed(o, names) && WellFormed(o)
    ensures var o := LiveRecord(ctor, fields);
            if i < |fields| && fields[i].name == path.text then
              fields[i].value in LiveSlots(o) && ReadAt(o, names, types, path) == SeenAs(fields[i].value, names)
            else (forall j | 0 <= j < |fields| :: fields[j].name != path.text) ==>
                   ReadAt(o, names, types, path) == JsValue.JsUndefined
  {
    var o := LiveRecord(ctor, fields);
    var es := EncodeValues(FieldSlots(fields), names);
    if i < |fields| && fields[i].name == path.text {
      FieldSlotAt(fields, i);
      assert FieldSlots(fields)[i] in LiveSlots(o);
      SlotNamed(o, names, fields[i].value);
      LabelledAt(fields, es, i);
      ValueSeen(fields[i].value, names);
    } else if forall j | 0 <= j < |fields| :: fields[j].name != path.text {
      NotLabelled(fields, es, path.text);
    }
  }

  /** An item of an array or set reads as the item at that place. */
  lemma ItemReads(o: LiveObject, names: Names, types: set<string>, path: Path)
    requires (o.LiveArray? || o.LiveSet?) && NeighboursNamed(o, names) && path.shape.Item?
    ensures if path.shape.index < |o.items| then
              && o.items[path.shape.index] in LiveSlots(o)
              && ReadAt(o, names, types, path) == SeenAs(o.items[path.shape.index], names)
            else ReadAt(o, names, types, path) == JsValue.JsUndefined
  {
    if path.shape.index < |o.items| {
      assert o.items[path.shape.index] in LiveSlots(o);
      SlotNamed(o, names, o.items[path.shape.index]);
      ValueSeen(o.items[path.shape.index], names);
    }
  }

  lemma {:induction false} PairedAt(es: seq<EncodedValue>, i: nat)
    requires 2 * i + 1 < |es|
    ensures i < |PairUp(es)| && PairUp(es)[i] == Entry(es[2 * i], es[2 * i + 1])
    decreases i
  {
    if i > 0 {
      PairedAt(es[2..], i - 1);
    }
  }

  lemma {:induction false} PairSlotAt(entries: seq<Pair>, i: nat)
    requires i < |entries|
    ensures |PairSlots(entries)| == 2 * |entries|
    ensures PairSlots(entries)[2 * i] == entries[i].key && PairSlots(entries)[2 * i + 1] == entries[i].value
    decreases i
  {
    SlotLengths(entries, []);
    if i > 0 {
      PairSlotAt(entries[1..], i - 1);
    }
  }

  lemma EncodedEntry(entries: seq<Pair>, names: Names, i: nat)
    requires i < |entries|
    ensures var encoded := PairUp(EncodeValues(PairSlots(entries), names));
            && i < |encoded|
            && encoded[i] == Entry(EncodeValue(entries[i].key, names), EncodeValue(entries[i].value, names))
  {
    PairSlotAt(entries, i);
    PairedAt(EncodeValues(PairSlots(entries), names), i);
  }

  /** Key and value of a map entry read as those of the entry at that place. */
  lemma EntryReads(entries: seq<Pair>, names: Names, types: set<string>, path: Path, i: nat)
    requires NeighboursNamed(LiveMap(entries), names) && i < |entries|
    requires path.shape == EntryKey(i) || path.shape == EntryValue(i)
    ensures var v := if path.shape.EntryKey? then entries[i].key else entries[i].value;
            (v.Pointer? ==> v.address in names) && ReadAt(LiveMap(entries), names, types, path) == SeenAs(v, names)
  {
    var v := if path.shape.EntryKey? then entries[i].key else entries[i].value;
    PairSlotsContain(entries, i);
    SlotNamed(LiveMap(entries), names, v);
    EncodedEntry(entries, names, i);
    ValueSeen(v, names);
  }

  /** Kind and type read as the object's own, the type only where its class is registered. */
  lemma KindReads(o: LiveObject, names: Names, types: set<string>)
    ensures KindOf(EncodeObject(o, names, types)) ==
            match o
            case LiveArray(_) => "array"
            case LiveSet(_) => "set"
            case LiveMap(_) => "map"
            case LiveRecord(_, _) => "object"
            case LiveLazy(_) => "lazy"
    ensures TypeOf(EncodeObject(o, names, types)) ==
            if o.LiveRecord? && o.ctor.Some? && o.ctor.value in types then o.ctor else None
  {
  }
}
