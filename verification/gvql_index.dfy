/** Node, type, property and edge indexes. */
module GvqlIndex {
  import opened EncodedGraph
  import opened GvqlValues

  datatype Visit = Visit(path: string, value: EncodedValue)

  datatype Edge = Edge(from: ObjectId, to: ObjectId, path: string, tag: string)

  function ItemVisits(items: seq<EncodedValue>): seq<Visit> {
    seq(|items|, i requires 0 <= i < |items| => Visit("[" + Decimal(i) + "]", items[i]))
  }

  function EntryVisits(entries: seq<Entry>): seq<Visit> {
    if entries == [] then []
    else
      var i := |entries| - 1;
      EntryVisits(entries[..i]) +
      [Visit("entries[" + Decimal(i) + "].key", entries[i].key),
       Visit("entries[" + Decimal(i) + "].value", entries[i].value)]
  }

  function PropertyVisits(props: seq<Property>): seq<Visit> {
    seq(|props|, i requires 0 <= i < |props| => Visit(props[i].name, props[i].value))
  }

  /** `visitEncodedNode`: every value position of a node with its path, in order. */
  function Visits(node: EncodedNode): seq<Visit> {
    match node
    case ArrayNode(items) => ItemVisits(items)
    case SetNode(items) => ItemVisits(items)
    case MapNode(entries) => EntryVisits(entries)
    case ObjectNode(_, props) => PropertyVisits(props)
    case LazyNode(_) => []
  }

  /** The path up to its first bracket or dot. */
  function EdgeLabel(path: string): string {
    if path == "" || path[0] == '[' || path[0] == '.' then "" else [path[0]] + EdgeLabel(path[1..])
  }

  function EdgesOf(from: ObjectId, visits: seq<Visit>): seq<Edge> {
    if visits == [] then []
    else
      var last := visits[|visits| - 1];
      EdgesOf(from, visits[..|visits| - 1]) +
      (if last.value.Ref? then [Edge(from, last.value.id, last.path, EdgeLabel(last.path))] else [])
  }

  function ReferencedEdges(from: ObjectId, node: EncodedNode): seq<Edge> {
    EdgesOf(from, Visits(node))
  }

  /** Which properties are indexed: all of them, or those whose key is configured. */
  datatype PropertyMode = AllProperties | Configured(keys: set<string>)

  datatype GraphIndex = GraphIndex(
    order: seq<ObjectId>,
    nodes: map<ObjectId, EncodedNode>,
    byType: map<string, seq<ObjectId>>,
    byProperty: map<string, seq<ObjectId>>,
    outgoing: map<ObjectId, seq<Edge>>,
    incoming: map<ObjectId, seq<Edge>>,
    mode: PropertyMode,
    indexedKeys: set<string>)

  function Bucket<K, V>(m: map<K, seq<V>>, k: K): seq<V> {
    if k in m then m[k] else []
  }

  function Push<K(!new), V>(m: map<K, seq<V>>, k: K, v: V): (r: map<K, seq<V>>)
    ensures forall j :: Bucket(r, j) == if j == k then Bucket(m, k) + [v] else Bucket(m, j)
  {
    m[k := Bucket(m, k) + [v]]
  }

  const SEPARATOR := "\0"

  function TypeText(typeName: Option<string>): string {
    if typeName.Some? then typeName.value else "*"
  }

  function PropertyKey(typeName: Option<string>, path: string): string {
    TypeText(typeName) + SEPARATOR + path
  }

  /** The bucket of a property value; `valueKey` is the deterministic text of the value. */
  function PropertyIndexKey(typeName: Option<string>, path: string, valueKey: string): string {
    TypeText(typeName) + SEPARATOR + path + SEPARATOR + valueKey
  }

  predicate ShouldIndex(mode: PropertyMode, typeName: Option<string>, path: string) {
    mode.AllProperties? || PropertyKey(typeName, path) in mode.keys || PropertyKey(None, path) in mode.keys
  }

  /** Edges leaving, respectively entering, `id`, in the order of `es`. */
  function EdgesOut(es: seq<Edge>, id: ObjectId): seq<Edge> {
    if es == [] then [] else
      var last := es[|es| - 1];
      EdgesOut(es[..|es| - 1], id) + (if last.from == id then [last] else [])
  }

  function EdgesIn(es: seq<Edge>, id: ObjectId): seq<Edge> {
    if es == [] then [] else
      var last := es[|es| - 1];
      EdgesIn(es[..|es| - 1], id) + (if last.to == id then [last] else [])
  }

  /** All edges of the listed nodes, node by node. */
  function AllEdges(order: seq<ObjectId>, nodes: map<ObjectId, EncodedNode>): seq<Edge>
    requires forall id | id in order :: id in nodes
  {
    if order == [] then [] else
      AllEdges(order[..|order| - 1], nodes) + ReferencedEdges(order[|order| - 1], nodes[order[|order| - 1]])
  }

  function OfType(order: seq<ObjectId>, nodes: map<ObjectId, EncodedNode>, typeName: string): seq<ObjectId>
    requires forall id | id in order :: id in nodes
  {
    if order == [] then [] else
      var last := order[|order| - 1];
      OfType(order[..|order| - 1], nodes, typeName) + (if TypeOf(nodes[last]) == Some(typeName) then [last] else [])
  }

  /** The property value makes the index list the node under this key. */
  predicate IndexedUnder(mode: PropertyMode, valueKey: JsValue -> string, typeName: Option<string>, p: Property,
                         key: string) {
    && ShouldIndex(mode, typeName, p.name)
    && (key == PropertyIndexKey(None, p.name, valueKey(EncodedToJs(p.value))) ||
        (typeName.Some? && key == PropertyIndexKey(typeName, p.name, valueKey(EncodedToJs(p.value)))))
  }

  predicate NodeIndexedUnder(mode: PropertyMode, valueKey: JsValue -> string, node: EncodedNode, key: string) {
    node.ObjectNode? && exists i | 0 <= i < |node.props| ::
        IndexedUnder(mode, valueKey, node.typeName, node.props[i], key)
  }

  /** The index is exactly the envelope's: types and edges in node order, each property value under its keys. */
  ghost predicate IndexOf(ix: GraphIndex, e: Envelope, order: seq<ObjectId>, mode: PropertyMode,
                          valueKey: JsValue -> string) {
    && ix.order == order && ix.nodes == e.nodes && ix.mode == mode
    && (forall id :: id in order <==> id in e.nodes)
    && (forall t :: Bucket(ix.byType, t) == OfType(order, e.nodes, t))
    && EdgesIndexed(ix, order, e.nodes)
    && (forall key, id :: id in Bucket(ix.byProperty, key) <==>
         id in e.nodes && NodeIndexedUnder(mode, valueKey, e.nodes[id], key))
    && (forall key :: key in ix.byProperty ==> Bucket(ix.byProperty, key) != [])
    && (forall key :: key in ix.indexedKeys <==> SomeMarks(order, e.nodes, mode, key))
  }

  /** Every edge is listed at both its ends, in node order. */
  ghost predicate EdgesIndexed(ix: GraphIndex, order: seq<ObjectId>, nodes: map<ObjectId, EncodedNode>)
    requires forall id | id in order :: id in nodes
  {
    forall id ::
      Bucket(ix.outgoing, id) == EdgesOut(AllEdges(order, nodes), id) &&
      Bucket(ix.incoming, id) == EdgesIn(AllEdges(order, nodes), id)
  }

  ghost predicate SomeMarks(ids: seq<ObjectId>, nodes: map<ObjectId, EncodedNode>, mode: PropertyMode, key: string) {
    exists i | 0 <= i < |ids| :: ids[i] in nodes && NodeMarks(nodes[ids[i]], mode, key)
  }

  /** The node has an indexed property whose plain or type-qualified key is `key`. */
  predicate MarkedBy(mode: PropertyMode, typeName: Option<string>, p: Property, key: string) {
    && ShouldIndex(mode, typeName, p.name)
    && (key == PropertyKey(None, p.name) || (typeName.Some? && key == PropertyKey(typeName, p.name)))
  }

  predicate NodeMarks(node: EncodedNode, mode: PropertyMode, key: string) {
    node.ObjectNode? && exists i | 0 <= i < |node.props| :: MarkedBy(mode, node.typeName, node.props[i], key)
  }

  /** Lists one node's properties; `keys` collects the indexed property keys. */
  method IndexProperties(id: ObjectId, node: EncodedNode, mode: PropertyMode, valueKey: JsValue -> string,
                         byProperty: map<string, seq<ObjectId>>, keys: set<string>)
    returns (byProperty': map<string, seq<ObjectId>>, keys': set<string>)
    requires node.ObjectNode?
    ensures forall key, x :: x in Bucket(byProperty', key) <==>
              x in Bucket(byProperty, key) || (x == id && NodeIndexedUnder(mode, valueKey, node, key))
    ensures forall key :: key in byProperty' && key !in byProperty ==> Bucket(byProperty', key) != []
    ensures forall key :: Bucket(byProperty, key) != [] ==> Bucket(byProperty', key) != []
    ensures forall key :: key in keys' <==> key in keys || NodeMarks(node, mode, key)
  {
    byProperty', keys' := byProperty, keys;
    for i := 0 to |node.props|
      invariant forall key, x :: x in Bucket(byProperty', key) <==>
                  x in Bucket(byProperty, key) ||
                  (x == id && exists j | 0 <= j < i :: IndexedUnder(mode, valueKey, node.typeName, node.props[j], key))
      invariant forall key :: key in byProperty' && key !in byProperty ==> Bucket(byProperty', key) != []
      invariant forall key :: Bucket(byProperty, key) != [] ==> Bucket(byProperty', key) != []
      invariant forall key :: key in keys' <==>
                  key in keys || exists j | 0 <= j < i :: MarkedBy(mode, node.typeName, node.props[j], key)
    {
      byProperty', keys' := IndexProperty(id, node.typeName, node.props[i], mode, valueKey, byProperty', keys');
    }
  }

  method IndexProperty(id: ObjectId, typeName: Option<string>, p: Property, mode: PropertyMode,
                       valueKey: JsValue -> string,
                       byProperty: map<string, seq<ObjectId>>, keys: set<string>)
    returns (byProperty': map<string, seq<ObjectId>>, keys': set<string>)
    ensures forall key, x :: x in Bucket(byProperty', key) <==>
              x in Bucket(byProperty, key) || (x == id && IndexedUnder(mode, valueKey, typeName, p, key))
    ensures forall key :: key in byProperty' && key !in byProperty ==> Bucket(byProperty', key) != []
    ensures forall key :: Bucket(byProperty, key) != [] ==> Bucket(byProperty', key) != []
    ensures forall key :: key in keys' <==> key in keys || MarkedBy(mode, typeName, p, key)
  {
    byProperty', keys' := byProperty, keys;
    if ShouldIndex(mode, typeName, p.name) {
      var value := valueKey(EncodedToJs(p.value));
      if typeName.Some? {
        byProperty' := Push(byProperty', PropertyIndexKey(typeName, p.name, value), id);
        keys' := keys' + {PropertyKey(typeName, p.name)};
      }
      byProperty' := Push(byProperty', PropertyIndexKey(None, p.name, value), id);
      keys' := keys' + {PropertyKey(None, p.name)};
    }
  }

  lemma {:induction false} EdgesConcat(a: seq<Edge>, b: seq<Edge>, id: ObjectId)
    ensures EdgesOut(a + b, id) == EdgesOut(a, id) + EdgesOut(b, id)
    ensures EdgesIn(a + b, id) == EdgesIn(a, id) + EdgesIn(b, id)
    decreases |b|
  {
    if b == [] {
      assert a + b == a;
    } else {
      assert (a + b)[..|a + b| - 1] == a + b[..|b| - 1];
      EdgesConcat(a, b[..|b| - 1], id);
    }
  }

  /** Lists each edge under its source and under its target. */
  method IndexEdges(es: seq<Edge>, outgoing: map<ObjectId, seq<Edge>>, incoming: map<ObjectId, seq<Edge>>)
    returns (outgoing': map<ObjectId, seq<Edge>>, incoming': map<ObjectId, seq<Edge>>)
    ensures Appended(outgoing, outgoing', Leaving(es)) && Appended(incoming, incoming', Entering(es))
  {
    outgoing', incoming' := outgoing, incoming;
    for i := 0 to |es|
      invariant Appended(outgoing, outgoing', Leaving(es[..i]))
      invariant Appended(incoming, incoming', Entering(es[..i]))
    {
      LeavingNext(es, i, outgoing, outgoing');
      EnteringNext(es, i, incoming, incoming');
      outgoing' := Push(outgoing', es[i].from, es[i]);
      incoming' := Push(incoming', es[i].to, es[i]);
    }
    assert es[..|es|] == es;
  }

  ghost function Leaving(es: seq<Edge>): ObjectId -> seq<Edge> {
    (id: ObjectId) => EdgesOut(es, id)
  }

  ghost function Entering(es: seq<Edge>): ObjectId -> seq<Edge> {
    (id: ObjectId) => EdgesIn(es, id)
  }

  /** Every bucket of `m'` is that of `m` with `extra` appended. */
  ghost predicate Appended(m: map<ObjectId, seq<Edge>>, m': map<ObjectId, seq<Edge>>, extra: ObjectId -> seq<Edge>) {
    forall id :: Bucket(m', id) == Bucket(m, id) + extra(id)
  }

  lemma AppendedNext(m: map<ObjectId, seq<Edge>>, m1: map<ObjectId, seq<Edge>>, m2: map<ObjectId, seq<Edge>>,
                     extra: ObjectId -> seq<Edge>, k: ObjectId, e: Edge, extra': ObjectId -> seq<Edge>)
    requires Appended(m, m1, extra)
    requires forall id :: Bucket(m2, id) == if id == k then Bucket(m1, k) + [e] else Bucket(m1, id)
    requires forall id :: extra'(id) == if id == k then extra(id) + [e] else extra(id)
    ensures Appended(m, m2, extra')
  {
    forall id ensures Bucket(m2, id) == Bucket(m, id) + extra'(id) {
      assert Bucket(m1, id) == Bucket(m, id) + extra(id);
      assert (Bucket(m, id) + extra(id)) + [e] == Bucket(m, id) + (extra(id) + [e]);
    }
  }

  lemma LeavingNext(es: seq<Edge>, i: nat, out: map<ObjectId, seq<Edge>>, out': map<ObjectId, seq<Edge>>)
    requires i < |es| && Appended(out, out', Leaving(es[..i]))
    ensures Appended(out, Push(out', es[i].from, es[i]), Leaving(es[..i + 1]))
  {
    EdgesNext(es, i);
    AppendedNext(out, out', Push(out', es[i].from, es[i]), Leaving(es[..i]), es[i].from, es[i], Leaving(es[..i + 1]));
  }

  lemma EnteringNext(es: seq<Edge>, i: nat, into: map<ObjectId, seq<Edge>>, into': map<ObjectId, seq<Edge>>)
    requires i < |es| && Appended(into, into', Entering(es[..i]))
    ensures Appended(into, Push(into', es[i].to, es[i]), Entering(es[..i + 1]))
  {
    EdgesNext(es, i);
    AppendedNext(into, into', Push(into', es[i].to, es[i]), Entering(es[..i]), es[i].to, es[i], Entering(es[..i + 1]));
  }

  lemma EdgesNext(es: seq<Edge>, i: nat)
    requires i < |es|
    ensures forall id :: EdgesOut(es[..i + 1], id) == if id == es[i].from then EdgesOut(es[..i], id) + [es[i]]
            else EdgesOut(es[..i], id)
    ensures forall id :: EdgesIn(es[..i + 1], id) == if id == es[i].to then EdgesIn(es[..i], id) + [es[i]]
            else EdgesIn(es[..i], id)
  {
    assert es[..i + 1][..i] == es[..i];
  }

  lemma AllEdgesNext(order: seq<ObjectId>, nodes: map<ObjectId, EncodedNode>, i: nat)
    requires i < |order| && forall id | id in order :: id in nodes
    ensures AllEdges(order[..i + 1], nodes) == AllEdges(order[..i], nodes) + ReferencedEdges(order[i], nodes[order[i]])
  {
    assert order[..i + 1][..i] == order[..i];
  }

  lemma AppendedTrans(m: map<ObjectId, seq<Edge>>, m': map<ObjectId, seq<Edge>>,
                      x: ObjectId -> seq<Edge>, y: ObjectId -> seq<Edge>, z: ObjectId -> seq<Edge>)
    requires Appended(map[], m, x) && Appended(m, m', y) && forall id :: z(id) == x(id) + y(id)
    ensures Appended(map[], m', z)
  {
    forall id: ObjectId ensures Bucket(m', id) == [] + z(id) {
      calc {
        Bucket(m', id);
        Bucket(m, id) + y(id);
        { assert Bucket<ObjectId, Edge>(map[], id) == []; }
        ([] + x(id)) + y(id);
        [] + z(id);
      }
    }
  }

  lemma EdgesConcatAll(a: seq<Edge>, b: seq<Edge>)
    ensures forall id: ObjectId :: Leaving(a + b)(id) == Leaving(a)(id) + Leaving(b)(id)
    ensures forall id: ObjectId :: Entering(a + b)(id) == Entering(a)(id) + Entering(b)(id)
  {
    forall id: ObjectId
      ensures Leaving(a + b)(id) == Leaving(a)(id) + Leaving(b)(id)
      ensures Entering(a + b)(id) == Entering(a)(id) + Entering(b)(id)
    {
      EdgesConcat(a, b, id);
    }
  }

  predicate Listed(ids: seq<ObjectId>, nodes: map<ObjectId, EncodedNode>, mode: PropertyMode,
                   valueKey: JsValue -> string,
                   key: string, x: ObjectId) {
    x in ids && x in nodes && NodeIndexedUnder(mode, valueKey, nodes[x], key)
  }

  /** What the first nodes of the order contribute to the property index. */
  ghost predicate PropertiesIndexed(byProperty: map<string, seq<ObjectId>>, ids: seq<ObjectId>,
                                    nodes: map<ObjectId, EncodedNode>, mode: PropertyMode,
                                        valueKey: JsValue -> string) {
    && (forall key, x :: x in Bucket(byProperty, key) <==> Listed(ids, nodes, mode, valueKey, key, x))
    && (forall key | key in byProperty :: Bucket(byProperty, key) != [])
  }

  ghost predicate KeysIndexed(keys: set<string>, ids: seq<ObjectId>, nodes: map<ObjectId, EncodedNode>,
                              mode: PropertyMode) {
    forall key :: key in keys <==> SomeMarks(ids, nodes, mode, key)
  }

  lemma ListedNext(ids: seq<ObjectId>, id: ObjectId, nodes: map<ObjectId, EncodedNode>, mode: PropertyMode,
                   valueKey: JsValue -> string, key: string, x: ObjectId)
    requires id in nodes
    ensures Listed(ids + [id], nodes, mode, valueKey, key, x) <==>
            Listed(ids, nodes, mode, valueKey, key, x) || (x == id && NodeIndexedUnder(mode, valueKey, nodes[id], key))
  {
  }

  lemma SomeMarksNext(ids: seq<ObjectId>, id: ObjectId, nodes: map<ObjectId, EncodedNode>, mode: PropertyMode,
                      key: string)
    requires id in nodes
    ensures SomeMarks(ids + [id], nodes, mode, key) <==>
            SomeMarks(ids, nodes, mode, key) || NodeMarks(nodes[id], mode, key)
  {
    var more := ids + [id];
    if SomeMarks(ids, nodes, mode, key) {
      var i :| 0 <= i < |ids| && ids[i] in nodes && NodeMarks(nodes[ids[i]], mode, key);
      assert more[i] == ids[i];
    }
    assert more[|ids|] == id;
  }

  /** One node's properties and type, added to what the nodes before it contributed. */
  method IndexNode(order: seq<ObjectId>, i: nat, nodes: map<ObjectId, EncodedNode>, mode: PropertyMode,
                   valueKey: JsValue -> string,
                   byProperty: map<string, seq<ObjectId>>, keys: set<string>)
    returns (byProperty': map<string, seq<ObjectId>>, keys': set<string>)
    requires i < |order| && order[i] in nodes
    requires PropertiesIndexed(byProperty, order[..i], nodes, mode, valueKey) &&
             KeysIndexed(keys, order[..i], nodes, mode)
    ensures PropertiesIndexed(byProperty', order[..i + 1], nodes, mode, valueKey) &&
            KeysIndexed(keys', order[..i + 1], nodes, mode)
  {
    var id, node := order[i], nodes[order[i]];
    byProperty', keys' := byProperty, keys;
    if node.ObjectNode? {
      byProperty', keys' := IndexProperties(id, node, mode, valueKey, byProperty, keys);
    }
    assert order[..i + 1] == order[..i] + [id];
    forall key, x ensures x in Bucket(byProperty', key) <==> Listed(order[..i + 1], nodes, mode, valueKey, key, x) {
      ListedNext(order[..i], id, nodes, mode, valueKey, key, x);
    }
    forall key ensures key in keys' <==> SomeMarks(order[..i + 1], nodes, mode, key) {
      SomeMarksNext(order[..i], id, nodes, mode, key);
    }
  }

  ghost predicate TypesIndexed(byType: map<string, seq<ObjectId>>, ids: seq<ObjectId>,
                               nodes: map<ObjectId, EncodedNode>) {
    && (forall id | id in ids :: id in nodes)
    && forall t :: Bucket(byType, t) == OfType(ids, nodes, t)
  }

  /** `buildGvqlGraphIndex`: one pass over the nodes in their order. */
  method BuildGraphIndex(e: Envelope, order: seq<ObjectId>, mode: PropertyMode, valueKey: JsValue -> string)
    returns (ix: GraphIndex)
    requires forall id :: id in order <==> id in e.nodes
    ensures IndexOf(ix, e, order, mode, valueKey)
  {
    var byType: map<string, seq<ObjectId>> := map[];
    var byProperty: map<string, seq<ObjectId>> := map[];
    var keys: set<string> := {};
    var outgoing: map<ObjectId, seq<Edge>> := map[];
    var incoming: map<ObjectId, seq<Edge>> := map[];
    for i := 0 to |order|
      invariant TypesIndexed(byType, order[..i], e.nodes)
      invariant PropertiesIndexed(byProperty, order[..i], e.nodes, mode, valueKey)
      invariant KeysIndexed(keys, order[..i], e.nodes, mode)
      invariant Appended(map[], outgoing, Leaving(AllEdges(order[..i], e.nodes)))
      invariant Appended(map[], incoming, Entering(AllEdges(order[..i], e.nodes)))
    {
      var id := order[i];
      var node := e.nodes[id];
      AllEdgesNext(order, e.nodes, i);
      byType := IndexType(byType, order, i, e.nodes);
      byProperty, keys := IndexNode(order, i, e.nodes, mode, valueKey, byProperty, keys);
      ghost var outgoing0, incoming0 := outgoing, incoming;
      outgoing, incoming := IndexEdges(ReferencedEdges(id, node), outgoing, incoming);
      ghost var before, own := AllEdges(order[..i], e.nodes), ReferencedEdges(id, node);
      EdgesConcatAll(before, own);
      AppendedTrans(outgoing0, outgoing, Leaving(before), Leaving(own), Leaving(before + own));
      AppendedTrans(incoming0, incoming, Entering(before), Entering(own), Entering(before + own));
    }
    assert order[..|order|] == order;
    ix := GraphIndex(order, e.nodes, byType, byProperty, outgoing, incoming, mode, keys);
    IndexComplete(ix, e, order, mode, valueKey);
  }

  lemma OfTypeNext(order: seq<ObjectId>, nodes: map<ObjectId, EncodedNode>, i: nat)
    requires i < |order| && forall id | id in order :: id in nodes
    ensures forall t :: OfType(order[..i + 1], nodes, t) ==
              if TypeOf(nodes[order[i]]) == Some(t) then OfType(order[..i], nodes, t) + [order[i]]
                 else OfType(order[..i], nodes, t)
  {
    assert order[..i + 1][..i] == order[..i];
  }

  method IndexType(byType: map<string, seq<ObjectId>>, order: seq<ObjectId>, i: nat, nodes: map<ObjectId, EncodedNode>)
    returns (byType': map<string, seq<ObjectId>>)
    requires i < |order| && (forall id | id in order :: id in nodes) && TypesIndexed(byType, order[..i], nodes)
    ensures TypesIndexed(byType', order[..i + 1], nodes)
  {
    var t := TypeOf(nodes[order[i]]);
    OfTypeNext(order, nodes, i);
    byType' := if t.Some? then Push(byType, t.value, order[i]) else byType;
  }

  lemma AllEdgesIndexed(ix: GraphIndex, order: seq<ObjectId>, nodes: map<ObjectId, EncodedNode>)
    requires forall id | id in order :: id in nodes
    requires Appended(map[], ix.outgoing, Leaving(AllEdges(order, nodes))) &&
             Appended(map[], ix.incoming, Entering(AllEdges(order, nodes)))
    ensures EdgesIndexed(ix, order, nodes)
  {
    forall id: ObjectId
      ensures Bucket(ix.outgoing, id) == EdgesOut(AllEdges(order, nodes), id)
      ensures Bucket(ix.incoming, id) == EdgesIn(AllEdges(order, nodes), id)
    {
      FromEmpty(ix.outgoing, Leaving(AllEdges(order, nodes)), id);
      FromEmpty(ix.incoming, Entering(AllEdges(order, nodes)), id);
    }
  }

  lemma FromEmpty(m: map<ObjectId, seq<Edge>>, extra: ObjectId -> seq<Edge>, id: ObjectId)
    requires Appended(map[], m, extra)
    ensures Bucket(m, id) == extra(id)
  {
    assert Bucket<ObjectId, Edge>(map[], id) == [];
    assert [] + extra(id) == extra(id);
  }

  lemma IndexComplete(ix: GraphIndex, e: Envelope, order: seq<ObjectId>, mode: PropertyMode,
                      valueKey: JsValue -> string)
    requires forall id :: id in order <==> id in e.nodes
    requires ix.order == order && ix.nodes == e.nodes && ix.mode == mode
    requires TypesIndexed(ix.byType, order, e.nodes)
    requires PropertiesIndexed(ix.byProperty, order, e.nodes, mode, valueKey)
    requires KeysIndexed(ix.indexedKeys, order, e.nodes, mode)
    requires Appended(map[], ix.outgoing, Leaving(AllEdges(order, e.nodes)))
    requires Appended(map[], ix.incoming, Entering(AllEdges(order, e.nodes)))
    ensures IndexOf(ix, e, order, mode, valueKey)
  {
    AllEdgesIndexed(ix, order, e.nodes);
    forall key, id
      ensures id in Bucket(ix.byProperty, key) <==> id in e.nodes && NodeIndexedUnder(mode, valueKey, e.nodes[id], key)
    {
      assert id in Bucket(ix.byProperty, key) <==> Listed(order, e.nodes, mode, valueKey, key, id);
    }
  }

  lemma {:induction false} EdgesInMember(es: seq<Edge>, id: ObjectId, x: Edge)
    ensures x in EdgesIn(es, id) <==> x in es && x.to == id
    ensures x in EdgesOut(es, id) <==> x in es && x.from == id
    decreases |es|
  {
    if es != [] {
      EdgesInMember(es[..|es| - 1], id, x);
      assert es == es[..|es| - 1] + [es[|es| - 1]];
    }
  }

  /** The incoming index is the exact transpose of the outgoing one. */
  lemma IncomingIsTranspose(ix: GraphIndex, nodes: map<ObjectId, EncodedNode>, order: seq<ObjectId>, x: Edge)
    requires (forall id | id in order :: id in nodes) && EdgesIndexed(ix, order, nodes)
    ensures x in Bucket(ix.incoming, x.to) <==> x in Bucket(ix.outgoing, x.from)
  {
    EdgesInMember(AllEdges(order, nodes), x.to, x);
    EdgesInMember(AllEdges(order, nodes), x.from, x);
  }

  lemma {:induction false} EdgesOfMember(from: ObjectId, visits: seq<Visit>, x: Edge)
    ensures x in EdgesOf(from, visits) <==>
            x.from == from && x.tag == EdgeLabel(x.path) && Visit(x.path, Ref(x.to)) in visits
    decreases |visits|
  {
    if visits != [] {
      EdgesOfMember(from, visits[..|visits| - 1], x);
      assert visits == visits[..|visits| - 1] + [visits[|visits| - 1]];
    }
  }

  lemma {:induction false} AllEdgesMember(order: seq<ObjectId>, nodes: map<ObjectId, EncodedNode>, x: Edge)
    requires forall id | id in order :: id in nodes
    ensures x in AllEdges(order, nodes) <==> x.from in order && x in ReferencedEdges(x.from, nodes[x.from])
    decreases |order|
  {
    if order != [] {
      var last := order[|order| - 1];
      AllEdgesMember(order[..|order| - 1], nodes, x);
      assert order == order[..|order| - 1] + [last];
      EdgesOfMember(last, Visits(nodes[last]), x);
    }
  }

  /** The index has an edge exactly where the node at its source holds a reference at its path. */
  lemma EdgeWitnessed(ix: GraphIndex, nodes: map<ObjectId, EncodedNode>, order: seq<ObjectId>, x: Edge)
    requires (forall id :: id in order <==> id in nodes) && EdgesIndexed(ix, order, nodes)
    ensures x in Bucket(ix.outgoing, x.from) <==>
            x.from in nodes && x.tag == EdgeLabel(x.path) && Visit(x.path, Ref(x.to)) in Visits(nodes[x.from])
  {
    EdgesInMember(AllEdges(order, nodes), x.from, x);
    AllEdgesMember(order, nodes, x);
    if x.from in nodes {
      EdgesOfMember(x.from, Visits(nodes[x.from]), x);
    }
  }
}
