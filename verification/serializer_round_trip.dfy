/** A graph read back is isomorphic. */
module SerializerRoundTrip {
  // Serializing a graph with arbitrary cycles and sharing and deserializing it again yields an isomorphic graph.

  import opened EncodedGraph
  import opened LiveGraph
  import opened Serializer
  import opened Deserializer

  type Renaming = map<Address, Address>

  function Rename(v: Value, f: Renaming): Value {
    match v
    case Primitive(_) => v
    case Pointer(a) => if a in f then Pointer(f[a]) else Primitive(JsNull)
  }

  function RenameAll(vs: seq<Value>, f: Renaming): seq<Value> {
    seq(|vs|, i requires 0 <= i < |vs| => Rename(vs[i], f))
  }

  function RenamePairs(es: seq<Pair>, f: Renaming): seq<Pair> {
    seq(|es|, i requires 0 <= i < |es| => Pair(Rename(es[i].key, f), Rename(es[i].value, f)))
  }

  function RenameFields(fs: seq<Field>, f: Renaming): seq<Field> {
    seq(|fs|, i requires 0 <= i < |fs| => Field(fs[i].name, Rename(fs[i].value, f)))
  }

  /** The same object with its pointers renamed. An unregistered class is lost: the object comes back plain. */
  function RenameObject(o: LiveObject, f: Renaming, types: set<string>): LiveObject {
    match o
    case LiveArray(items) => LiveArray(RenameAll(items, f))
    case LiveSet(items) => LiveSet(RenameAll(items, f))
    case LiveMap(entries) => LiveMap(RenamePairs(entries, f))
    case LiveRecord(ctor, fields) =>
      LiveRecord(if ctor.Some? && ctor.value in types then ctor else None, RenameFields(fields, f))
    case LiveLazy(key) => LiveLazy(key)
  }

  /** What the collections of the language guarantee: set members, map keys and field names are distinct. */
  ghost predicate WellFormed(o: LiveObject) {
    match o
    case LiveSet(items) => forall i, j | 0 <= i < j < |items| :: items[i] != items[j]
    case LiveMap(entries) => forall i, j | 0 <= i < j < |entries| :: entries[i].key != entries[j].key
    case LiveRecord(_, fields) => forall i, j | 0 <= i < j < |fields| :: fields[i].name != fields[j].name
    case _ => true
  }

  /** One bijection between the objects of two graphs that respects roots, slots, entries, members and fields. */
  ghost predicate Isomorphic(heap: Heap, root: Value, objects: set<Address>, heap': Heap, root': Value, f: Renaming,
                             types: set<string>) {
    && objects <= heap.Keys && f.Keys == objects && Injective(f) && f.Values == heap'.Keys
    && root' == Rename(root, f) && (root.Pointer? ==> root.address in f)
    && forall a | a in objects :: heap'[f[a]] == RenameObject(heap[a], f, types)
  }

  function Composed(names: Names, places: Places): Renaming {
    map a | a in names && names[a] in places :: places[names[a]]
  }

  lemma DecodeEncodeValue(v: Value, names: Names, places: Places)
    requires v.Pointer? ==> v.address in names && names[v.address] in places
    ensures DecodeValue(EncodeValue(v, names), places) == Rename(v, Composed(names, places))
  {
  }

  lemma DecodeEncodeValues(vs: seq<Value>, names: Names, places: Places)
    requires forall a | Pointer(a) in vs :: a in names && names[a] in places
    ensures DecodeValues(EncodeValues(vs, names), places) == RenameAll(vs, Composed(names, places))
  {
    forall i | 0 <= i < |vs|
      ensures DecodeValue(EncodeValue(vs[i], names), places) == Rename(vs[i], Composed(names, places))
    {
      assert vs[i] in vs;
      DecodeEncodeValue(vs[i], names, places);
    }
  }

  lemma RenameInjective(v: Value, w: Value, f: Renaming)
    requires Injective(f) && Rename(v, f) == Rename(w, f)
    requires (v.Pointer? ==> v.address in f) && (w.Pointer? ==> w.address in f)
    ensures v == w
  {
  }

  lemma {:induction false} FillSetDistinct(acc: seq<Value>, vs: seq<Value>)
    requires forall i, j | 0 <= i < j < |acc + vs| :: (acc + vs)[i] != (acc + vs)[j]
    ensures FillSet(acc, vs) == acc + vs
    decreases |vs|
  {
    if vs == [] {
      assert acc + vs == acc;
    } else {
      assert (acc + vs)[|acc|] == vs[0];
      forall i | 0 <= i < |acc| ensures acc[i] != vs[0] {
        assert (acc + vs)[i] == acc[i];
      }
      assert (acc + [vs[0]]) + vs[1..] == acc + vs;
      FillSetDistinct(acc + [vs[0]], vs[1..]);
    }
  }

  lemma {:induction false} MapSetFresh(acc: seq<Pair>, k: Value, v: Value)
    requires forall i | 0 <= i < |acc| :: acc[i].key != k
    ensures MapSet(acc, k, v) == acc + [Pair(k, v)]
    decreases |acc|
  {
    if acc != [] {
      MapSetFresh(acc[1..], k, v);
      assert [acc[0]] + (acc[1..] + [Pair(k, v)]) == acc + [Pair(k, v)];
    }
  }

  lemma {:induction false} FillMapDistinct(acc: seq<Pair>, es: seq<Pair>)
    requires forall i, j | 0 <= i < j < |acc + es| :: (acc + es)[i].key != (acc + es)[j].key
    ensures FillMap(acc, PairSlots(es)) == acc + es
    decreases |es|
  {
    if es == [] {
      assert acc + es == acc;
    } else {
      forall i | 0 <= i < |acc| ensures acc[i].key != es[0].key {
        assert (acc + es)[i] == acc[i] && (acc + es)[|acc|] == es[0];
      }
      MapSetFresh(acc, es[0].key, es[0].value);
      assert acc + [Pair(es[0].key, es[0].value)] + es[1..] == acc + es;
      FillMapDistinct(acc + [es[0]], es[1..]);
      assert PairSlots(es)[2..] == PairSlots(es[1..]);
    }
  }

  lemma {:induction false} AssignFresh(acc: seq<Field>, name: string, v: Value)
    requires forall i | 0 <= i < |acc| :: acc[i].name != name
    ensures AssignField(acc, name, v) == acc + [Field(name, v)]
    decreases |acc|
  {
    if acc != [] {
      AssignFresh(acc[1..], name, v);
      assert [acc[0]] + (acc[1..] + [Field(name, v)]) == acc + [Field(name, v)];
    }
  }

  /** Fields refilled from labelled encodings are the fields with their values decoded. */
  lemma {:induction false} FillFieldsDistinct(acc: seq<Field>, fields: seq<Field>, es: seq<EncodedValue>)
    requires |es| == |fields|
    requires forall i, j | 0 <= i < j < |acc + fields| :: (acc + fields)[i].name != (acc + fields)[j].name
    ensures FillFields(acc, LabelAll(fields, es), FieldSlots(fields)) == acc + fields
    decreases |fields|
  {
    if fields == [] {
      assert acc + fields == acc;
    } else {
      forall i | 0 <= i < |acc| ensures acc[i].name != fields[0].name {
        assert (acc + fields)[i] == acc[i] && (acc + fields)[|acc|] == fields[0];
      }
      AssignFresh(acc, fields[0].name, fields[0].value);
      assert acc + [Field(fields[0].name, fields[0].value)] + fields[1..] == acc + fields;
      FillFieldsDistinct(acc + [fields[0]], fields[1..], es[1..]);
      assert FieldSlots(fields)[1..] == FieldSlots(fields[1..]);
    }
  }

  lemma {:induction false} SlotLengths(entries: seq<Pair>, fields: seq<Field>)
    ensures |PairSlots(entries)| == 2 * |entries| && |FieldSlots(fields)| == |fields|
    decreases |entries| + |fields|
  {
    if entries != [] { SlotLengths(entries[1..], fields); }
    else if fields != [] { SlotLengths(entries, fields[1..]); }
  }

  lemma {:induction false} EntrySlotsPairUp(es: seq<EncodedValue>)
    requires |es| % 2 == 0
    ensures EntrySlots(PairUp(es)) == es
    decreases |es|
  {
    if |es| >= 2 {
      EntrySlotsPairUp(es[2..]);
      assert [es[0], es[1]] + es[2..] == es;
    }
  }

  lemma {:induction false} PropertySlotsLabel(fields: seq<Field>, es: seq<EncodedValue>)
    requires |es| == |fields|
    ensures PropertySlots(LabelAll(fields, es)) == es
    decreases |fields|
  {
    if fields != [] {
      PropertySlotsLabel(fields[1..], es[1..]);
      assert [es[0]] + es[1..] == es;
    }
  }

  /** An encoded node has the encodings of the object's slots, in order. */
  lemma SlotsOfEncoding(o: LiveObject, names: Names, types: set<string>)
    ensures Slots(EncodeObject(o, names, types)) == EncodeValues(LiveSlots(o), names)
  {
    match o
    case LiveMap(entries) =>
      SlotLengths(entries, []);
      EntrySlotsPairUp(EncodeValues(PairSlots(entries), names));
    case LiveRecord(_, fields) =>
      SlotLengths([], fields);
      PropertySlotsLabel(fields, EncodeValues(FieldSlots(fields), names));
    case _ =>
  }

  lemma {:induction false} PairSlotsRename(es: seq<Pair>, f: Renaming)
    ensures PairSlots(RenamePairs(es, f)) == RenameAll(PairSlots(es), f)
    decreases |es|
  {
    if es != [] {
      PairSlotsRename(es[1..], f);
      assert RenamePairs(es, f)[1..] == RenamePairs(es[1..], f);
    }
  }

  lemma {:induction false} FieldSlotsRename(fs: seq<Field>, f: Renaming)
    ensures FieldSlots(RenameFields(fs, f)) == RenameAll(FieldSlots(fs), f)
    decreases |fs|
  {
    if fs != [] {
      FieldSlotsRename(fs[1..], f);
      assert RenameFields(fs, f)[1..] == RenameFields(fs[1..], f);
    }
  }

  lemma {:induction false} PairSlotsContain(es: seq<Pair>, i: nat)
    requires i < |es|
    ensures es[i].key in PairSlots(es) && es[i].value in PairSlots(es)
    decreases |es|
  {
    if i > 0 { PairSlotsContain(es[1..], i - 1); }
  }

  lemma RenamedKeysDistinct(es: seq<Pair>, f: Renaming)
    requires Injective(f) && forall a | Pointer(a) in PairSlots(es) :: a in f
    requires forall i, j | 0 <= i < j < |es| :: es[i].key != es[j].key
    ensures var r := RenamePairs(es, f); forall i, j | 0 <= i < j < |r| :: r[i].key != r[j].key
  {
    forall i, j | 0 <= i < j < |es| ensures Rename(es[i].key, f) != Rename(es[j].key, f) {
      PairSlotsContain(es, i);
      PairSlotsContain(es, j);
      if Rename(es[i].key, f) == Rename(es[j].key, f) {
        RenameInjective(es[i].key, es[j].key, f);
      }
    }
  }

  lemma RenamedMembersDistinct(vs: seq<Value>, f: Renaming)
    requires Injective(f) && forall a | Pointer(a) in vs :: a in f
    requires forall i, j | 0 <= i < j < |vs| :: vs[i] != vs[j]
    ensures var r := RenameAll(vs, f); forall i, j | 0 <= i < j < |r| :: r[i] != r[j]
  {
    forall i, j | 0 <= i < j < |vs| ensures Rename(vs[i], f) != Rename(vs[j], f) {
      assert vs[i] in vs && vs[j] in vs;
      if Rename(vs[i], f) == Rename(vs[j], f) {
        RenameInjective(vs[i], vs[j], f);
      }
    }
  }

  lemma {:induction false} LabelsRename(fields: seq<Field>, f: Renaming, es: seq<EncodedValue>)
    ensures LabelAll(RenameFields(fields, f), es) == LabelAll(fields, es)
    decreases |fields|
  {
    if fields != [] && es != [] {
      assert RenameFields(fields, f)[1..] == RenameFields(fields[1..], f);
      LabelsRename(fields[1..], f, es[1..]);
    }
  }

  lemma FillEmptyMap(es: seq<Pair>)
    requires forall i, j | 0 <= i < j < |es| :: es[i].key != es[j].key
    ensures FillMap([], PairSlots(es)) == es
  {
    assert [] + es == es;
    FillMapDistinct([], es);
  }

  lemma FillEmptyRecord(fields: seq<Field>, es: seq<EncodedValue>)
    requires |es| == |fields|
    requires forall i, j | 0 <= i < j < |fields| :: fields[i].name != fields[j].name
    ensures FillFields([], LabelAll(fields, es), FieldSlots(fields)) == fields
  {
    assert [] + fields == fields;
    FillFieldsDistinct([], fields, es);
  }

  lemma RefillMap(entries: seq<Pair>, f: Renaming)
    requires Injective(f) && forall a | Pointer(a) in PairSlots(entries) :: a in f
    requires forall i, j | 0 <= i < j < |entries| :: entries[i].key != entries[j].key
    ensures FillMap([], RenameAll(PairSlots(entries), f)) == RenamePairs(entries, f)
  {
    RenamedKeysDistinct(entries, f);
    PairSlotsRename(entries, f);
    FillEmptyMap(RenamePairs(entries, f));
  }

  lemma RefillSet(items: seq<Value>, f: Renaming)
    requires Injective(f) && forall a | Pointer(a) in items :: a in f
    requires forall i, j | 0 <= i < j < |items| :: items[i] != items[j]
    ensures FillSet([], RenameAll(items, f)) == RenameAll(items, f)
  {
    RenamedMembersDistinct(items, f);
    assert [] + RenameAll(items, f) == RenameAll(items, f);
    FillSetDistinct([], RenameAll(items, f));
  }

  lemma RefillFields(fields: seq<Field>, f: Renaming, es: seq<EncodedValue>)
    requires |es| == |fields|
    requires forall i, j | 0 <= i < j < |fields| :: fields[i].name != fields[j].name
    ensures FillFields([], LabelAll(fields, es), RenameAll(FieldSlots(fields), f)) == RenameFields(fields, f)
  {
    FieldSlotsRename(fields, f);
    LabelsRename(fields, f, es);
    FillEmptyRecord(RenameFields(fields, f), es);
  }

  lemma ComposedInjective(names: Names, places: Places)
    requires Injective(names) && Injective(places)
    ensures Injective(Composed(names, places))
  {
  }

  /** One object, encoded and decoded, is itself with its pointers renamed. */
  lemma DecodeEncodeObject(o: LiveObject, names: Names, places: Places, types: set<string>)
    requires WellFormed(o) && Injective(names) && Injective(places)
    requires forall a | PointsTo(o, a) :: a in names && names[a] in places
    ensures DecodeNode(EncodeObject(o, names, types), places) == RenameObject(o, Composed(names, places), types)
  {
    var f := Composed(names, places);
    SlotsOfEncoding(o, names, types);
    DecodeEncodeValues(LiveSlots(o), names, places);
    ComposedInjective(names, places);
    match o
    case LiveSet(items) => RefillSet(items, f);
    case LiveMap(entries) => RefillMap(entries, f);
    case LiveRecord(_, fields) =>
      SlotLengths([], fields);
      RefillFields(fields, f, EncodeValues(LiveSlots(o), names));
    case _ =>
  }

  lemma EncodedReference(heap: Heap, types: set<string>, names: Names, nodes: map<ObjectId, EncodedNode>, id: ObjectId,
                         a: Address, to: ObjectId)
    requires WrittenBy(heap, types, names, nodes, id, a) && ClosedHeap(heap, names.Keys) && RefersTo(nodes[id], to)
    ensures exists b :: PointsTo(heap[a], b) && b in names && names[b] == to
  {
    SlotsOfEncoding(heap[a], names, types);
    var i :| 0 <= i < |LiveSlots(heap[a])| && EncodeValue(LiveSlots(heap[a])[i], names) == Ref(to);
    assert PointsTo(heap[a], LiveSlots(heap[a])[i].address);
  }

  lemma PointerEncoded(heap: Heap, types: set<string>, root: Value, names: Names, e: Envelope, a: Address, b: Address)
    requires IsEncoding(heap, types, root, names, e) && a in names && PointsTo(heap[a], b)
    ensures b in names && RefersTo(e.nodes[names[a]], names[b])
  {
    SlotsOfEncoding(heap[a], names, types);
    var i :| 0 <= i < |LiveSlots(heap[a])| && LiveSlots(heap[a])[i] == Pointer(b);
    assert EncodeValues(LiveSlots(heap[a]), names)[i] == Ref(names[b]);
  }

  /** A serialized envelope is closed under references and contains its root: no dangling id. */
  lemma EncodingClosed(heap: Heap, types: set<string>, root: Value, names: Names, e: Envelope)
    requires IsWritten(heap, types, root, names, e)
    ensures Closed(e)
  {
    forall from, to | from in e.nodes && RefersTo(e.nodes[from], to)
      ensures to in e.nodes
    {
      var a :| WrittenBy(heap, types, names, e.nodes, from, a);
      EncodedReference(heap, types, names, e.nodes, from, a, to);
    }
  }

  /** Its nodes are exactly the ids reachable from its root. */
  lemma EncodingReachable(heap: Heap, types: set<string>, root: Value, names: Names, e: Envelope)
    requires IsEncoding(heap, types, root, names, e) && names.Keys == Reachable(heap, root)
    ensures ReachableIds(e) == e.nodes.Keys
  {
    WrittenIsEncoding(heap, types, root, names, e);
    EncodingClosed(heap, types, root, names, e);
    ReachableIdsLeast(e, e.nodes.Keys);
    var r := ReachableIds(e);
    ReachableIdsClosed(e);
    var inside := set a | a in names && names[a] in r;
    forall a, b | a in inside && PointsTo(heap[a], b)
      ensures b in inside
    {
      PointerEncoded(heap, types, root, names, e, a, b);
    }
    ReachableLeast(heap, root, inside);
  }

  /** So deserializing it never throws. */
  lemma EncodingLoadable(heap: Heap, types: set<string>, root: Value, names: Names, e: Envelope)
    requires IsWritten(heap, types, root, names, e)
    ensures forall id | id in ReachableIds(e) :: Loadable(e.nodes, types, id)
  {
    EncodingClosed(heap, types, root, names, e);
    ReachableIdsLeast(e, e.nodes.Keys);
    forall id | id in e.nodes ensures Loadable(e.nodes, types, id) {
      var a :| WrittenBy(heap, types, names, e.nodes, id, a);
    }
  }

  lemma DecodedObject(heap: Heap, types: set<string>, root: Value, names: Names, e: Envelope,
                      places: Places, heap': Heap, root': Value, a: Address)
    requires IsEncoding(heap, types, root, names, e) && IsDecoding(e, places, heap', root')
    requires places.Keys == e.nodes.Keys && a in names && WellFormed(heap[a])
    ensures heap'[Composed(names, places)[a]] == RenameObject(heap[a], Composed(names, places), types)
  {
    DecodeEncodeObject(heap[a], names, places, types);
  }

  /** The round trip: decoding the encoding of a graph gives an isomorphic graph. */
  lemma RoundTrip(heap: Heap, types: set<string>, root: Value, names: Names, e: Envelope,
                  places: Places, heap': Heap, root': Value)
    requires IsEncoding(heap, types, root, names, e) && IsDecoding(e, places, heap', root')
    requires names.Keys == Reachable(heap, root) && places.Keys == ReachableIds(e)
    requires forall a | a in heap :: WellFormed(heap[a])
    ensures Isomorphic(heap, root, names.Keys, heap', root', Composed(names, places), types)
  {
    var f := Composed(names, places);
    EncodingReachable(heap, types, root, names, e);
    ComposedInjective(names, places);
    DecodeEncodeValue(root, names, places);
    forall a | a in names
      ensures heap'[f[a]] == RenameObject(heap[a], f, types)
    {
      DecodedObject(heap, types, root, names, e, places, heap', root', a);
    }
    RangeOfComposed(names, places);
  }

  lemma RangeOfComposed(names: Names, places: Places)
    requires names.Values == places.Keys
    ensures Composed(names, places).Keys == names.Keys && Composed(names, places).Values == places.Values
  {
    var f := Composed(names, places);
    assert f.Values == places.Values by {
      forall b | b in places.Values ensures b in f.Values {
        var id :| id in places && places[id] == b;
        var a :| a in names && names[a] == id;
        assert f[a] == b;
      }
    }
  }

  // Objects that share an id.

  lemma {:induction false} FewValues(m: map<nat, nat>)
    ensures |m.Values| <= |m.Keys|
    decreases |m|
  {
    if k :| k in m {
      var rest := m - {k};
      FewValues(rest);
      forall v | v in m.Values ensures v in rest.Values + {m[k]} {
        var x :| x in m && m[x] == v;
        assert x != k ==> rest[x] == v;
      }
      assert m.Values <= rest.Values + {m[k]};
      FewerOrAsMany(m.Values, rest.Values + {m[k]});
      assert m.Keys == rest.Keys + {k};
    }
  }

  lemma {:induction false} FewerOrAsMany(a: set<nat>, b: set<nat>)
    requires a <= b
    ensures |a| <= |b|
  {
    assert b == a + (b - a);
  }

  lemma {:induction false} AsManyValues(m: map<nat, nat>)
    requires Injective(m)
    ensures |m.Values| == |m.Keys|
    decreases |m|
  {
    if k :| k in m {
      var rest := m - {k};
      AsManyValues(rest);
      assert m.Values == rest.Values + {m[k]} by {
        forall v | v in m.Values ensures v in rest.Values + {m[k]} {
          var x :| x in m && m[x] == v;
          assert x != k ==> rest[x] == v;
        }
      }
      assert m[k] !in rest.Values;
      assert m.Keys == rest.Keys + {k};
    }
  }

  lemma FewerValues(m: map<nat, nat>)
    requires !Injective(m)
    ensures |m.Values| < |m.Keys|
  {
    var x, y :| x in m && y in m && m[x] == m[y] && x != y;
    var rest := m - {x};
    FewValues(rest);
    forall v | v in m.Values ensures v in rest.Values {
      var z :| z in m && m[z] == v;
      assert z != x ==> rest[z] == v;
      assert rest[y] == m[x];
    }
    assert m.Values == rest.Values && m.Keys == rest.Keys + {x};
  }

  /** An envelope with fewer ids than objects decodes to fewer objects. */
  lemma SharedIdsLoseObjects(heap: Heap, types: set<string>, root: Value, names: Names, e: Envelope,
                             places: Places, heap': Heap, root': Value, f: Renaming)
    requires IsWritten(heap, types, root, names, e) && IsDecoding(e, places, heap', root') && !Injective(names)
    ensures !Isomorphic(heap, root, names.Keys, heap', root', f, types)
  {
    FewerValues(names);
    FewerOrAsMany(places.Keys, names.Values);
    FewValues(places);
    assert |heap'.Keys| < |names.Keys|;
    if Isomorphic(heap, root, names.Keys, heap', root', f, types) {
      AsManyValues(f);
    }
  }

  /** Whatever the registry says: the graph read back is isomorphic if and only if no two objects share an id. */
  lemma RoundTripIff(heap: Heap, types: set<string>, root: Value, names: Names, e: Envelope,
                     places: Places, heap': Heap, root': Value)
    requires IsWritten(heap, types, root, names, e) && IsDecoding(e, places, heap', root')
    requires names.Keys == Reachable(heap, root) && places.Keys == ReachableIds(e)
    requires forall a | a in heap :: WellFormed(heap[a])
    ensures (exists f :: Isomorphic(heap, root, names.Keys, heap', root', f, types)) <==> Injective(names)
  {
    if Injective(names) {
      WrittenIsEncoding(heap, types, root, names, e);
      RoundTrip(heap, types, root, names, e, places, heap', root');
    } else {
      forall f ensures !Isomorphic(heap, root, names.Keys, heap', root', f, types) {
        SharedIdsLoseObjects(heap, types, root, names, e, places, heap', root', f);
      }
    }
  }

  /** An object that holds a copy of itself made by `cloneRoot`, which carries the same id. */
  const WITH_COPY: Heap := map[0 := LiveRecord(None, [Field("copy", Pointer(1))]),
                               1 := LiveRecord(None, [Field("v", Primitive(JsNumber(1.0)))])]
  const SHARED_ID: Names := map[0 := 7, 1 := 7]

  /** One node is written for the two objects, and it refers to itself: what the copy held is gone. */
  lemma CopyIsOverwritten(types: set<string>, e: Envelope)
    ensures IsWritten(WITH_COPY, types, Pointer(0), SHARED_ID, e) <==>
            e == Envelope(Ref(7), map[7 := ObjectNode(None, [Property("copy", Ref(7))])])
  {
    assert SHARED_ID.Values == {7} by {
      assert SHARED_ID[0] == 7;
    }
    var node := ObjectNode(None, [Property("copy", Ref(7))]);
    var fields, es := [Field("copy", Pointer(1))], [Ref(7)];
    assert FieldSlots(fields[1..]) == [] && FieldSlots(fields) == [Pointer(1)];
    assert EncodeValues([Pointer(1)], SHARED_ID) == es;
    assert LabelAll(fields[1..], es[1..]) == [] && LabelAll(fields, es) == [Property("copy", Ref(7))];
    assert EncodeObject(WITH_COPY[0], SHARED_ID, types) == node;
    assert ClosedHeap(WITH_COPY, SHARED_ID.Keys);
    assert WrittenBy(WITH_COPY, types, SHARED_ID, map[7 := node], 7, 0);
    assert e.nodes.Keys == {7} && e.nodes[7] == node ==> e.nodes == map[7 := node];
  }

  lemma EncodeRenamed(vs: seq<Value>, f: Renaming, names: Names, names': Names)
    requires forall a | Pointer(a) in vs :: a in f && a in names && f[a] in names' && names'[f[a]] == names[a]
    ensures EncodeValues(RenameAll(vs, f), names') == EncodeValues(vs, names)
  {
    forall i | 0 <= i < |vs| ensures EncodeValue(Rename(vs[i], f), names') == EncodeValue(vs[i], names) {
      assert vs[i] in vs;
    }
  }

  lemma EncodeRenamedObject(o: LiveObject, f: Renaming, names: Names, names': Names, types: set<string>)
    requires forall a | PointsTo(o, a) :: a in f && a in names && f[a] in names' && names'[f[a]] == names[a]
    ensures EncodeObject(RenameObject(o, f, types), names', types) == EncodeObject(o, names, types)
  {
    EncodeRenamed(LiveSlots(o), f, names, names');
    match o
    case LiveMap(entries) => PairSlotsRename(entries, f);
    case LiveRecord(_, fields) =>
      FieldSlotsRename(fields, f);
      LabelsRename(fields, f, EncodeValues(LiveSlots(o), names));
    case _ =>
  }

  /** Serializing the copy under the ids it carries gives back the very same envelope: ids are stable over reloads. */
  lemma CopySerializesAlike(heap: Heap, types: set<string>, root: Value, names: Names, e: Envelope,
                            heap': Heap, root': Value, f: Renaming, names': Names, e': Envelope)
    requires IsEncoding(heap, types, root, names, e) && IsEncoding(heap', types, root', names', e')
    requires Isomorphic(heap, root, names.Keys, heap', root', f, types)
    requires names'.Keys == f.Values && forall a | a in f :: names'[f[a]] == names[a]
    ensures e' == e
  {
    forall a | a in names
      ensures names[a] in e'.nodes && e'.nodes[names[a]] == e.nodes[names[a]]
    {
      assert f[a] in names' && names'[f[a]] == names[a];
      EncodeRenamedObject(heap[a], f, names, names', types);
    }
    assert e'.nodes.Keys == e.nodes.Keys;
    assert e'.nodes == e.nodes;
  }

  /** Original and copy carry the same ids: the registry names both sides of the bijection alike. */
  lemma SameIds(ids: Names, names: Names, places: Places)
    requires Extends(names, ids)
    requires forall id | id in places :: places[id] in ids && ids[places[id]] == id
    ensures var f := Composed(names, places);
            forall a | a in f :: a in ids && f[a] in ids && ids[f[a]] == ids[a]
  {
  }

  method SerializeGraph(heap: Heap, types: set<string>, registry: ObjectIdRegistry, root: Value)
    returns (e: Envelope, ghost names: Names)
    requires registry.Valid() && ClosedHeap(heap, heap.Keys) && (root.Pointer? ==> root.address in heap)
    modifies registry
    ensures registry.Valid() && Extends(names, registry.ids) && registry.ids.Keys <= old(registry.ids.Keys) + heap.Keys
    ensures names.Keys == Reachable(heap, root) && IsWritten(heap, types, root, names, e)
    ensures Injective(names) <==> old(DistinctIds(registry.ids, Reachable(heap, root)))
  {
    var encoding := new Encoding(heap, types, registry);
    e := encoding.Serialize(root);
    names := encoding.seen;
    WrittenIsEncoding(heap, types, root, names, e);
  }

  method DeserializeGraph(e: Envelope, types: set<string>, registry: ObjectIdRegistry, firstFree: Address)
    returns (ok: bool, heap: Heap, root: Value, ghost places: Places)
    requires registry.Valid() && forall a | a in registry.ids :: a < firstFree
    modifies registry
    ensures ok <==> forall id | id in ReachableIds(e) :: Loadable(e.nodes, types, id)
    ensures ok ==>
              && places.Keys == ReachableIds(e) && IsDecoding(e, places, heap, root)
              && Extends(old(registry.ids), registry.ids)
              && forall id | id in places :: places[id] in registry.ids && registry.ids[places[id]] == id
  {
    var decoding := new Decoding(e.nodes, types, registry, firstFree);
    ok, root := decoding.Deserialize(e);
    heap, places := decoding.heap, decoding.places;
  }

  /**
   * `cloneRoot`: the rollback copy of a transaction always succeeds and carries the same ids. It is isomorphic to the
   * live root if and only if no two of its objects share an id.
   */
  method CloneRoot(heap: Heap, types: set<string>, registry: ObjectIdRegistry, root: Value, firstFree: Address)
    returns (ok: bool, heap': Heap, root': Value, ghost f: Renaming)
    requires registry.Valid() && forall a | a in registry.ids :: a < firstFree
    requires ClosedHeap(heap, heap.Keys) && (root.Pointer? ==> root.address in heap)
    requires forall a | a in heap :: WellFormed(heap[a]) && a < firstFree
    modifies registry
    ensures ok
    ensures old(DistinctIds(registry.ids, Reachable(heap, root))) ==>
              Isomorphic(heap, root, Reachable(heap, root), heap', root', f, types)
    ensures (exists g :: Isomorphic(heap, root, Reachable(heap, root), heap', root', g, types)) <==>
            old(DistinctIds(registry.ids, Reachable(heap, root)))
    ensures forall a | a in f :: a in registry.ids && f[a] in registry.ids && registry.ids[f[a]] == registry.ids[a]
  {
    ghost var names, places;
    var e;
    e, names := SerializeGraph(heap, types, registry, root);
    EncodingLoadable(heap, types, root, names, e);
    ok, heap', root', places := DeserializeGraph(e, types, registry, firstFree);
    f := Composed(names, places);
    RoundTripIff(heap, types, root, names, e, places, heap', root');
    if Injective(names) {
      WrittenIsEncoding(heap, types, root, names, e);
      RoundTrip(heap, types, root, names, e, places, heap', root');
    }
    SameIds(registry.ids, names, places);
  }
}
