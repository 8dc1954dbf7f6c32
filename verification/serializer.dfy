/** `GraphSerializer.serialize` on any heap. */
module Serializer {
  // `GraphSerializer.serialize`: the depth-first walk over a cyclic, shared heap and the registry that names objects.

  import opened EncodedGraph
  import opened Folding
  import opened LiveGraph

  /** Stable object ids. */
  class ObjectIdRegistry {
    var ids: Names
    var nextId: ObjectId

    ghost predicate Valid()
      reads this
    {
      forall a | a in ids :: ids[a] < nextId
    }

    constructor ()
      ensures Valid() && ids == map[] && nextId == 1
    {
      ids, nextId := map[], 1;
    }

    method IdFor(a: Address) returns (id: ObjectId)
      requires Valid()
      modifies this
      ensures Valid() && a in ids && ids[a] == id
      ensures a in old(ids) ==> ids == old(ids) && nextId == old(nextId)
      ensures a !in old(ids) ==> id == old(nextId) && nextId == id + 1 && ids == old(ids)[a := id]
    {
      if a in ids {
        id := ids[a];
      } else {
        id := nextId;
        nextId := nextId + 1;
        ids := ids[a := id];
      }
    }

    method Remember(id: ObjectId, a: Address)
      requires Valid()
      modifies this
      ensures Valid() && ids == old(ids)[a := id]
      ensures nextId == if id >= old(nextId) then id + 1 else old(nextId)
    {
      ids := ids[a := id];
      if id >= nextId {
        nextId := id + 1;
      }
    }
  }

  /** No two objects of `r` carry the same id. */
  ghost predicate DistinctIds(ids: Names, r: set<Address>) {
    forall a, b | a in r && b in r && a in ids && b in ids && ids[a] == ids[b] :: a == b
  }

  /** The objects every closed part of the heap containing the root contains. */
  ghost function Reachable(heap: Heap, root: Value): set<Address> {
    set a | a in heap && forall s: set<Address> | ClosedHeap(heap, s) && (root.Pointer? ==> root.address in s) :: a in s
  }

  lemma ReachableClosed(heap: Heap, root: Value)
    requires ClosedHeap(heap, heap.Keys) && (root.Pointer? ==> root.address in heap)
    ensures ClosedHeap(heap, Reachable(heap, root))
    ensures root.Pointer? ==> root.address in Reachable(heap, root)
  {
    var r := Reachable(heap, root);
    forall a, b | a in r && PointsTo(heap[a], b)
      ensures b in r
    {
      forall s: set<Address> | ClosedHeap(heap, s) && (root.Pointer? ==> root.address in s) ensures b in s {
        assert a in s;
      }
    }
  }

  lemma ReachableLeast(heap: Heap, root: Value, s: set<Address>)
    requires ClosedHeap(heap, s) && (root.Pointer? ==> root.address in s)
    ensures Reachable(heap, root) <= s
  {
  }

  /** `e` is the graph under `names`: same root, one node per named object, each the encoding of that object. */
  ghost predicate IsEncoding(heap: Heap, types: set<string>, root: Value, names: Names, e: Envelope) {
    && ClosedHeap(heap, names.Keys) && (root.Pointer? ==> root.address in names)
    && Injective(names)
    && e.root == EncodeValue(root, names)
    && e.nodes.Keys == names.Values
    && forall a | a in names :: e.nodes[names[a]] == EncodeObject(heap[a], names, types)
  }

  /** The node under `id` is the encoding of the object `a`. */
  ghost predicate WrittenBy(heap: Heap, types: set<string>, names: Names, nodes: map<ObjectId, EncodedNode>,
                            id: ObjectId, a: Address) {
    && a in heap && a in names && names[a] == id && id in nodes
    && nodes[id] == EncodeObject(heap[a], names, types)
  }

  /**
   * What is written whether or not objects share an id: one node per id in use, the encoding of one of the objects that
   * carry it, and under the root's id that of the root, which is finished last.
   */
  ghost predicate IsWritten(heap: Heap, types: set<string>, root: Value, names: Names, e: Envelope) {
    && ClosedHeap(heap, names.Keys) && (root.Pointer? ==> root.address in names)
    && e.root == EncodeValue(root, names)
    && e.nodes.Keys == names.Values
    && (forall id | id in e.nodes :: exists a :: WrittenBy(heap, types, names, e.nodes, id, a))
    && (root.Pointer? ==> WrittenBy(heap, types, names, e.nodes, names[root.address], root.address))
  }

  /** With distinct ids, and only then, this is the encoding of every object. */
  lemma WrittenIsEncoding(heap: Heap, types: set<string>, root: Value, names: Names, e: Envelope)
    ensures IsEncoding(heap, types, root, names, e) <==> IsWritten(heap, types, root, names, e) && Injective(names)
  {
    if IsWritten(heap, types, root, names, e) && Injective(names) {
      forall a | a in names ensures e.nodes[names[a]] == EncodeObject(heap[a], names, types) {
        var b :| WrittenBy(heap, types, names, e.nodes, names[a], b);
      }
    }
    if IsEncoding(heap, types, root, names, e) {
      forall id | id in e.nodes ensures exists a :: WrittenBy(heap, types, names, e.nodes, id, a) {
        var a :| a in names && names[a] == id;
        assert WrittenBy(heap, types, names, e.nodes, id, a);
      }
    }
  }

  /** A finished object has a node under its id, and its neighbours are named. */
  ghost predicate Finished(heap: Heap, seen: Names, nodes: map<ObjectId, EncodedNode>, a: Address) {
    a in heap && a in seen && seen[a] in nodes && forall b | PointsTo(heap[a], b) :: b in seen
  }

  ghost predicate HasWriter(heap: Heap, types: set<string>, names: Names, nodes: map<ObjectId, EncodedNode>,
                            black: set<Address>, id: ObjectId) {
    exists a | a in black :: WrittenBy(heap, types, names, nodes, id, a)
  }

  /** What the walk maintains: `black` objects are finished, the others it has seen are in progress. */
  ghost predicate SoundParts(heap: Heap, types: set<string>, ids: Names, seen: Names, nodes: map<ObjectId, EncodedNode>,
                             black: set<Address>, r: set<Address>) {
    && black <= seen.Keys <= r
    && Extends(seen, ids)
    && (forall a | a in black :: Finished(heap, seen, nodes, a))
    && (forall id | id in nodes :: HasWriter(heap, types, seen, nodes, black, id))
  }

  ghost predicate Sound(heap: Heap, types: set<string>, ids: Names, seen: Names, nodes: map<ObjectId, EncodedNode>,
                        black: set<Address>, r: set<Address>) {
    forall u {:trigger Unfold(u)} | Unfold(u) :: SoundParts(heap, types, ids, seen, nodes, black, r)
  }

  lemma EncodingUnfolded(heap: Heap, types: set<string>, ids: Names, seen: Names, nodes: map<ObjectId, EncodedNode>,
                 black: set<Address>, r: set<Address>)
    requires Sound(heap, types, ids, seen, nodes, black, r)
    ensures SoundParts(heap, types, ids, seen, nodes, black, r)
  {
    assert Unfold(true);
  }

  lemma WrittenExtends(heap: Heap, types: set<string>, seen: Names, seen': Names, nodes: map<ObjectId, EncodedNode>,
                       id: ObjectId, a: Address)
    requires WrittenBy(heap, types, seen, nodes, id, a) && Finished(heap, seen, nodes, a) && Extends(seen, seen')
    ensures WrittenBy(heap, types, seen', nodes, id, a)
  {
    EncodeFrame(LiveSlots(heap[a]), seen, seen');
  }

  lemma WriterExtends(heap: Heap, types: set<string>, seen: Names, seen': Names, nodes: map<ObjectId, EncodedNode>,
                      black: set<Address>, id: ObjectId)
    requires HasWriter(heap, types, seen, nodes, black, id) && Extends(seen, seen')
    requires forall a | a in black :: Finished(heap, seen, nodes, a)
    ensures HasWriter(heap, types, seen', nodes, black, id)
  {
    var a :| a in black && WrittenBy(heap, types, seen, nodes, id, a);
    WrittenExtends(heap, types, seen, seen', nodes, id, a);
  }

  lemma FinishedExtends(heap: Heap, seen: Names, nodes: map<ObjectId, EncodedNode>, a: Address, seen': Names)
    requires Finished(heap, seen, nodes, a) && Extends(seen, seen')
    ensures Finished(heap, seen', nodes, a)
  {
  }

  lemma PartsExtend(heap: Heap, types: set<string>, ids: Names, seen: Names, nodes: map<ObjectId, EncodedNode>,
                    black: set<Address>, r: set<Address>, ids': Names, seen': Names)
    requires SoundParts(heap, types, ids, seen, nodes, black, r) && Extends(seen, seen')
    requires black <= seen'.Keys <= r && Extends(seen', ids')
    ensures SoundParts(heap, types, ids', seen', nodes, black, r)
  {
    forall b | b in black ensures Finished(heap, seen', nodes, b) {
      FinishedExtends(heap, seen, nodes, b, seen');
    }
    forall id | id in nodes ensures HasWriter(heap, types, seen', nodes, black, id) {
      WriterExtends(heap, types, seen, seen', nodes, black, id);
    }
  }

  lemma SoundExtends(heap: Heap, types: set<string>, ids: Names, seen: Names, nodes: map<ObjectId, EncodedNode>,
                     black: set<Address>, r: set<Address>, ids': Names, a: Address)
    requires Sound(heap, types, ids, seen, nodes, black, r) && a in r && a !in seen
    requires Extends(ids, ids') && a in ids'
    ensures Sound(heap, types, ids', seen[a := ids'[a]], nodes, black, r)
  {
    EncodingUnfolded(heap, types, ids, seen, nodes, black, r);
    PartsExtend(heap, types, ids, seen, nodes, black, r, ids', seen[a := ids'[a]]);
  }

  lemma SoundFinish(heap: Heap, types: set<string>, ids: Names, seen: Names, nodes: map<ObjectId, EncodedNode>,
                    black: set<Address>, r: set<Address>, a: Address)
    requires Sound(heap, types, ids, seen, nodes, black, r) && a in heap && a in seen && a !in black
    requires forall b | PointsTo(heap[a], b) :: b in seen
    ensures Sound(heap, types, ids, seen, nodes[seen[a] := EncodeObject(heap[a], seen, types)], black + {a}, r)
  {
    EncodingUnfolded(heap, types, ids, seen, nodes, black, r);
    var nodes' := nodes[seen[a] := EncodeObject(heap[a], seen, types)];
    forall b | b in black + {a} ensures Finished(heap, seen, nodes', b) {
      assert b != a ==> Finished(heap, seen, nodes, b);
    }
    forall id | id in nodes' ensures HasWriter(heap, types, seen, nodes', black + {a}, id) {
      if id == seen[a] {
        assert WrittenBy(heap, types, seen, nodes', id, a);
      } else {
        var b :| b in black && WrittenBy(heap, types, seen, nodes, id, b);
        assert WrittenBy(heap, types, seen, nodes', id, b);
      }
    }
  }

  lemma EncodeNext(vs: seq<Value>, i: nat, names: Names, names': Names)
    requires i < |vs| && Extends(names, names') && forall a | Pointer(a) in vs[..i] :: a in names
    ensures EncodeValues(vs[..i + 1], names') == EncodeValues(vs[..i], names) + [EncodeValue(vs[i], names')]
    ensures (vs[i].Pointer? ==> vs[i].address in names') ==> forall a | Pointer(a) in vs[..i + 1] :: a in names'
  {
    EncodeFrame(vs[..i], names, names');
    assert vs[..i + 1] == vs[..i] + [vs[i]];
  }

  /** A fresh id neither makes nor hides a clash. */
  lemma FreshIdDistinct(ids: Names, r: set<Address>, a: Address, id: ObjectId)
    requires a !in ids && forall b | b in ids :: ids[b] < id
    ensures DistinctIds(ids[a := id], r) <==> DistinctIds(ids, r)
  {
    if DistinctIds(ids[a := id], r) {
      forall x, y | x in r && y in r && x in ids && y in ids && ids[x] == ids[y] ensures x == y {
        assert ids[a := id][x] == ids[x] && ids[a := id][y] == ids[y];
      }
    }
  }

  /** One call of `serialize`, with the closure's variables as fields. `black` holds the objects already written out. */
  class Encoding {
    const heap: Heap
    const types: set<string>
    const registry: ObjectIdRegistry
    var seen: Names
    var nodes: map<ObjectId, EncodedNode>
    ghost var black: set<Address>

    constructor (heap: Heap, types: set<string>, registry: ObjectIdRegistry)
      ensures this.heap == heap && this.types == types && this.registry == registry
      ensures seen == map[] && nodes == map[] && black == {}
    {
      this.heap, this.types, this.registry := heap, types, registry;
      seen, nodes, black := map[], map[], {};
    }

    ghost predicate Valid(r: set<Address>)
      reads this, registry
    {
      registry.Valid() && Sound(heap, types, registry.ids, seen, nodes, black, r)
    }

    /** What a walk may do: name and finish more objects of `r`; the ones in progress stay in progress. */
    twostate predicate Progress(r: set<Address>)
      reads this, registry
    {
      && Valid(r)
      && Extends(old(seen), seen) && old(black) <= black
      && seen.Keys - black == old(seen.Keys - black)
      && Extends(old(registry.ids), registry.ids) && registry.ids.Keys <= old(registry.ids.Keys) + r
      && (DistinctIds(registry.ids, r) <==> old(DistinctIds(registry.ids, r)))
    }

    /** Names an object before its slots are visited. */
    method Enter(a: Address, ghost r: set<Address>) returns (id: ObjectId)
      requires Valid(r) && a in r && a !in seen
      modifies this, registry
      ensures Valid(r) && seen == old(seen)[a := id] && black == old(black)
      ensures Extends(old(registry.ids), registry.ids) && registry.ids.Keys <= old(registry.ids.Keys) + r
      ensures DistinctIds(registry.ids, r) <==> old(DistinctIds(registry.ids, r))
    {
      ghost var ids := registry.ids;
      EncodingUnfolded(heap, types, registry.ids, seen, nodes, black, r);
      if a !in ids {
        FreshIdDistinct(ids, r, a, registry.nextId);
      }
      id := registry.IdFor(a);
      SoundExtends(heap, types, ids, seen, nodes, black, r, registry.ids, a);
      seen := seen[a := id];
    }

    /** Writes an object out once all its slots are encoded. */
    method Leave(a: Address, es: seq<EncodedValue>, ghost r: set<Address>)
      requires Valid(r) && a in heap && a in seen && a !in black
      requires es == EncodeValues(LiveSlots(heap[a]), seen)
      requires forall b | PointsTo(heap[a], b) :: b in seen
      modifies this
      ensures Valid(r) && seen == old(seen) && black == old(black) + {a}
      ensures WrittenBy(heap, types, seen, nodes, seen[a], a)
    {
      SoundFinish(heap, types, registry.ids, seen, nodes, black, r, a);
      nodes := nodes[seen[a] := Assemble(heap[a], es, types)];
      black := black + {a};
    }

    /** Encodes one value, walking into an object that has not been met. */
    method Encode(v: Value, ghost r: set<Address>) returns (e: EncodedValue)
      requires Valid(r) && ClosedHeap(heap, r) && (v.Pointer? ==> v.address in r)
      modifies this, registry
      ensures Progress(r)
      ensures e == EncodeValue(v, seen) && (v.Pointer? ==> v.address in seen)
      ensures v.Pointer? && v.address !in old(seen) ==>
                WrittenBy(heap, types, seen, nodes, seen[v.address], v.address)
      decreases r - seen.Keys, 1
    {
      if v.Primitive? {
        return EncodeScalar(v.scalar);
      }
      if v.address !in seen {
        Visit(v.address, r);
      }
      e := Ref(seen[v.address]);
    }

    /** Names an object, encodes its slots, writes it out. */
    method Visit(a: Address, ghost r: set<Address>)
      requires Valid(r) && ClosedHeap(heap, r) && a in r && a !in seen
      modifies this, registry
      ensures Progress(r) && a in seen && WrittenBy(heap, types, seen, nodes, seen[a], a)
      decreases r - seen.Keys, 0
    {
      var id := Enter(a, r);
      label Entered:
      assert a in r - old(seen.Keys) && a !in r - seen.Keys;
      assert a !in black by { EncodingUnfolded(heap, types, registry.ids, old(seen), old(nodes), black, r); }
      assert seen.Keys - black == old(seen.Keys - black) + {a};
      var es := EncodeAll(LiveSlots(heap[a]), r);
      assert seen.Keys - black == old@Entered(seen.Keys - black);
      Leave(a, es, r);
    }

    /** Encodes the slots of an object in order. */
    method EncodeAll(vs: seq<Value>, ghost r: set<Address>) returns (es: seq<EncodedValue>)
      requires Valid(r) && ClosedHeap(heap, r) && forall b | Pointer(b) in vs :: b in r
      modifies this, registry
      ensures Progress(r)
      ensures es == EncodeValues(vs, seen) && forall b | Pointer(b) in vs :: b in seen
      decreases r - seen.Keys, 2
    {
      es := [];
      for i := 0 to |vs|
        invariant Progress(r)
        invariant es == EncodeValues(vs[..i], seen)
        invariant forall b | Pointer(b) in vs[..i] :: b in seen
      {
        ghost var seen0 := seen;
        assert r - seen.Keys <= old(r - seen.Keys);
        var e := Encode(vs[i], r);
        EncodeNext(vs, i, seen0, seen);
        es := es + [e];
      }
      assert vs[..|vs|] == vs;
    }
  
    /**
     * `serialize`: exactly the objects reachable from the root are named, and each id in use has a node. The envelope
     * encodes every object if and only if the registry gives no two of them the same id.
     */
    method Serialize(root: Value) returns (e: Envelope)
      requires registry.Valid() && seen == map[] && nodes == map[] && black == {}
      requires ClosedHeap(heap, heap.Keys) && (root.Pointer? ==> root.address in heap)
      modifies this, registry
      ensures registry.Valid() && Extends(old(registry.ids), registry.ids) && Extends(seen, registry.ids)
      ensures registry.ids.Keys <= old(registry.ids.Keys) + heap.Keys
      ensures seen.Keys == Reachable(heap, root) && IsWritten(heap, types, root, seen, e)
      ensures IsEncoding(heap, types, root, seen, e) <==> old(DistinctIds(registry.ids, Reachable(heap, root)))
    {
      ghost var r := Reachable(heap, root);
      ReachableClosed(heap, root);
      var v := Encode(root, r);
      e := Envelope(v, nodes);
      AllFinished(heap, types, registry.ids, seen, nodes, black, root);
      WrittenIsEncoding(heap, types, root, seen, e);
    }
  }

  /** With nothing in progress, every reachable object is finished and every node is one of theirs. */
  lemma AllFinished(heap: Heap, types: set<string>, ids: Names, seen: Names, nodes: map<ObjectId, EncodedNode>,
                    black: set<Address>, root: Value)
    requires Sound(heap, types, ids, seen, nodes, black, Reachable(heap, root)) && seen.Keys - black == {}
    requires root.Pointer? ==> root.address in seen
    ensures seen.Keys == Reachable(heap, root) && ClosedHeap(heap, seen.Keys) && nodes.Keys == seen.Values
    ensures forall id | id in nodes :: exists a :: WrittenBy(heap, types, seen, nodes, id, a)
    ensures Extends(seen, ids) && (Injective(seen) <==> DistinctIds(ids, Reachable(heap, root)))
  {
    EncodingUnfolded(heap, types, ids, seen, nodes, black, Reachable(heap, root));
    forall a | a in seen ensures Finished(heap, seen, nodes, a) {
      assert a !in seen.Keys - black;
    }
    AllWritten(heap, types, seen, nodes, black);
    ReachableLeast(heap, root, seen.Keys);
    InjectiveIffDistinct(ids, seen);
  }

  /** Every node belongs to an object and every object has a node. */
  lemma AllWritten(heap: Heap, types: set<string>, seen: Names, nodes: map<ObjectId, EncodedNode>, black: set<Address>)
    requires forall a | a in seen :: Finished(heap, seen, nodes, a)
    requires forall id | id in nodes :: HasWriter(heap, types, seen, nodes, black, id)
    ensures ClosedHeap(heap, seen.Keys) && nodes.Keys == seen.Values
    ensures forall id | id in nodes :: exists a :: WrittenBy(heap, types, seen, nodes, id, a)
  {
    forall id | id in nodes ensures id in seen.Values {
      var a :| a in black && WrittenBy(heap, types, seen, nodes, id, a);
    }
    forall id | id in seen.Values ensures id in nodes {
      var a :| a in seen && seen[a] == id;
      assert Finished(heap, seen, nodes, a);
    }
  }

  lemma InjectiveIffDistinct(ids: Names, names: Names)
    requires Extends(names, ids)
    ensures Injective(names) <==> DistinctIds(ids, names.Keys)
  {
    if Injective(names) {
      forall a, b | a in names && b in names && a in ids && b in ids && ids[a] == ids[b] ensures a == b {
        assert names[a] == names[b];
      }
    }
  }
}
